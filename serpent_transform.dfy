/**
 * The Serpent transform object of Crypto/SerpentManagedTransform.cs: it holds the user key and
 * the expanded key, computes the key schedule when it is created, encrypts and decrypts a block
 * of four words in place, does the same on a 16-byte block through the little-endian codec,
 * and clears its key material on Reset.
 */
module SerpentTransform {
  import opened Outcomes
  import opened Utils
  import opened Buffers
  import opened SerpentSBoxes
  import opened SerpentLinear
  import opened SerpentKeys
  import Network = SerpentNetwork

  /** The key lengths the algorithm accepts: 128, 192 and 256 bits. */
  predicate LegalKeyLength(n: int)
  {
    n == 16 || n == 24 || n == 32
  }

  /** Word p of the prekeys, read bit by bit: GetBit at a position below 32 is that bit of word offset. */
  lemma GetBitLow(x: seq<bv32>, j: bv32, offset: int)
    requires j < 32 && 0 <= offset < |x|
    ensures (j >> 5) as int == 0 && j & 31 == j
    ensures GetBit(x, j, offset) == Bit(x[offset], j)
  {
  }

  /** The nibble the inner loop assembles from four GetBit calls is nibble j of the four prekeys. */
  lemma GetBitsNibble(wk: seq<bv32>, i: nat, j: bv32)
    requires |wk| == PrekeyCount && i < SubkeyCount && j < 32
    ensures 4 * i + 3 < |wk|
    ensures GetBit(wk, j, 4 * i) | (GetBit(wk, j, 4 * i + 1) << 1) | (GetBit(wk, j, 4 * i + 2) << 2)
            | (GetBit(wk, j, 4 * i + 3) << 3) == Nibble(PrekeyQuad(wk, i), j)
  {
    GetBitLow(wk, j, 4 * i);
    GetBitLow(wk, j, 4 * i + 1);
    GetBitLow(wk, j, 4 * i + 2);
    GetBitLow(wk, j, 4 * i + 3);
  }

  /**
   * One prekey statement of the key schedule: working is the xor of the four register words a, b,
   * c and d, PHI and the index i, and prekey i is working rotated left by 11. The register words
   * are the padded key's where the recurrence reaches before prekey 0, and earlier prekeys after.
   */
  method StorePrekey(workingKey: array<bv32>, i: nat, a: bv32, b: bv32, c: bv32, d: bv32, ghost fullKey: seq<bv32>)
    requires |fullKey| == 8 && i < workingKey.Length == PrekeyCount
    requires workingKey[..i] == Prekeys(fullKey, i)
    requires a == if i >= 8 then workingKey[i - 8] else fullKey[i]
    requires b == if i >= 5 then workingKey[i - 5] else fullKey[i + 3]
    requires c == if i >= 3 then workingKey[i - 3] else fullKey[i + 5]
    requires d == if i >= 1 then workingKey[i - 1] else fullKey[i + 7]
    modifies workingKey
    ensures workingKey[..i + 1] == Prekeys(fullKey, i + 1)
    ensures workingKey[i + 1..] == old(workingKey[i + 1..])
  {
    ghost var before := workingKey[..];
    workingKey[i] := PrekeyMix(a, b, c, d, i as bv32);
    StoredPrekey(fullKey, before, workingKey[..], i, a, b, c, d);
  }

  /**
   * The prekeys of a padded key: eight statements written out, reading the padded key, then the
   * loop over i = 8 .. 131 that reads only earlier prekeys.
   */
  method ComputePrekeys(fullKey: seq<bv32>) returns (workingKey: array<bv32>)
    requires |fullKey| == 8
    ensures fresh(workingKey)
    ensures workingKey[..] == Prekeys(fullKey, PrekeyCount)
  {
    workingKey := new bv32[PrekeyCount];
    StorePrekey(workingKey, 0, fullKey[0], fullKey[3], fullKey[5], fullKey[7], fullKey);
    StorePrekey(workingKey, 1, fullKey[1], fullKey[4], fullKey[6], workingKey[0], fullKey);
    StorePrekey(workingKey, 2, fullKey[2], fullKey[5], fullKey[7], workingKey[1], fullKey);
    StorePrekey(workingKey, 3, fullKey[3], fullKey[6], workingKey[0], workingKey[2], fullKey);
    StorePrekey(workingKey, 4, fullKey[4], fullKey[7], workingKey[1], workingKey[3], fullKey);
    StorePrekey(workingKey, 5, fullKey[5], workingKey[0], workingKey[2], workingKey[4], fullKey);
    StorePrekey(workingKey, 6, fullKey[6], workingKey[1], workingKey[3], workingKey[5], fullKey);
    StorePrekey(workingKey, 7, fullKey[7], workingKey[2], workingKey[4], workingKey[6], fullKey);
    var i := 8;
    while i < PrekeyCount
      invariant 8 <= i <= PrekeyCount
      invariant workingKey[..i] == Prekeys(fullKey, i)
    {
      StorePrekey(workingKey, i, workingKey[i - 8], workingKey[i - 5], workingKey[i - 3], workingKey[i - 1], fullKey);
      i := i + 1;
    }
    assert workingKey[..] == workingKey[..PrekeyCount];
  }

  /** The S-box input at bit position j of subkey i: bit j of prekeys 4i, 4i+1, 4i+2 and 4i+3, by GetBit. */
  method ReadNibble(wk: seq<bv32>, i: nat, j: bv32) returns (in1: bv32)
    requires |wk| == PrekeyCount && i < SubkeyCount && j < 32
    ensures in1 < 16 && in1 == Nibble(PrekeyQuad(wk, i), j)
  {
    GetBitsNibble(wk, i, j);
    NibbleBound(PrekeyQuad(wk, i), j);
    in1 := GetBit(wk, j, 4 * i) | (GetBit(wk, j, 4 * i + 1) << 1) |
           (GetBit(wk, j, 4 * i + 2) << 2) | (GetBit(wk, j, 4 * i + 3) << 3);
  }

  /** Word b of the subkey |= (out1 >> b & 1) << j: bit b of the S-box output lands at position j. */
  method OrSubkeyBit(kb: bv32, out1: bv32, b: bv32, j: bv32, ghost row: seq<bv32>, ghost w: Quad) returns (r: bv32)
    requires |row| == 16 && j < 32 && b < 4
    requires kb == SliceWord(row, w, b, j)
    requires Nibble(w, j) < 16 && out1 == row[Nibble(w, j) as int]
    ensures r == SliceWord(row, w, b, j + 1)
  {
    SliceWordNext(row, w, b, j, kb, out1);
    r := kb | (((out1 >> b) & 1) << j);
  }

  /** Subkey i, built bit position by bit position from table row (32 + 3 - i) & 31. */
  method ComputeSubkey(wk: seq<bv32>, i: nat) returns (k: Quad)
    requires |wk| == PrekeyCount && i < SubkeyCount
    ensures k == Subkey(wk, i)
  {
    var box := (32 + 3 - i) % 32;
    SBoxTableRowLength(box);
    ghost var row, w := SBoxTable[box], PrekeyQuad(wk, i);
    var k0, k1, k2, k3: bv32 := 0, 0, 0, 0;
    var j: bv32 := 0;
    while j < 32
      invariant j <= 32
      invariant k0 == SliceWord(row, w, 0, j)
      invariant k1 == SliceWord(row, w, 1, j)
      invariant k2 == SliceWord(row, w, 2, j)
      invariant k3 == SliceWord(row, w, 3, j)
    {
      var in1 := ReadNibble(wk, i, j);
      var out1 := SBoxTable[box][in1 as int];
      k0 := OrSubkeyBit(k0, out1, 0, j, row, w);
      k1 := OrSubkeyBit(k1, out1, 1, j, row, w);
      k2 := OrSubkeyBit(k2, out1, 2, j, row, w);
      k3 := OrSubkeyBit(k3, out1, 3, j, row, w);
      j := j + 1;
    }
    k := Quad(k0, k1, k2, k3);
  }

  /** The 33 subkeys of the 132 prekeys, in order. */
  method ComputeSubkeys(wk: seq<bv32>) returns (subkeys: seq<Quad>)
    requires |wk| == PrekeyCount
    ensures subkeys == Subkeys(wk)
  {
    subkeys := [];
    var i := 0;
    while i < SubkeyCount
      invariant 0 <= i <= SubkeyCount && |subkeys| == i
      invariant subkeys == Subkeys(wk)[..i]
    {
      var k := ComputeSubkey(wk, i);
      assert Subkeys(wk)[..i + 1] == Subkeys(wk)[..i] + [k];
      subkeys := subkeys + [k];
      i := i + 1;
    }
  }

  /**
   * Encryption round r on the state: xor subkey r in, S-box r mod 8, then the linear
   * transformation, or in the last round the xor of subkey 32.
   */
  method EncryptRound(ks: seq<Quad>, r: nat, q: Quad) returns (next: Quad)
    requires Network.IsExpandedKey(ks) && r < Network.Rounds
    ensures next == Network.Round(ks, r, q)
  {
    next := Network.KeyXor(q, ks[r]);
    next := SBoxFormula(r, next);
    if r < Network.Rounds - 1 {
      next := LT(next);
    } else {
      next := Network.KeyXor(next, ks[Network.Rounds]);
    }
  }

  /**
   * Decryption round r on the state: undo the xor of subkey 32 in the last round or the linear
   * transformation otherwise, then the inverse S-box r mod 8 and the xor of subkey r.
   */
  method DecryptRound(ks: seq<Quad>, r: nat, q: Quad) returns (next: Quad)
    requires Network.IsExpandedKey(ks) && r < Network.Rounds
    ensures next == Network.InvRound(ks, r, q)
  {
    if r == Network.Rounds - 1 {
      next := Network.KeyXor(q, ks[Network.Rounds]);
    } else {
      next := InvLT(q);
    }
    next := InvSBoxFormula(r, next);
    next := Network.KeyXor(next, ks[r]);
  }

  /** The rounds r = 0 .. 31 of encryption, one after the other, on the state read from the block. */
  method EncryptRounds(ks: seq<Quad>, q0: Quad) returns (q: Quad)
    requires Network.IsExpandedKey(ks)
    ensures q == Network.Encrypt(ks, q0)
  {
    q := q0;
    for r := 0 to Network.Rounds
      invariant q == Network.EncryptRounds(ks, q0, r)
    {
      Network.EncryptRoundsNext(ks, q0, r);
      q := EncryptRound(ks, r, q);
    }
  }

  /** The rounds r = 31 .. 0 of decryption, last round first, on the state read from the block. */
  method DecryptRounds(ks: seq<Quad>, q0: Quad) returns (q: Quad)
    requires Network.IsExpandedKey(ks)
    ensures q == Network.Decrypt(ks, q0)
  {
    q := q0;
    var r := Network.Rounds;
    while r > 0
      invariant 0 <= r <= Network.Rounds
      invariant Network.DecryptRounds(ks, q, r) == Network.DecryptRounds(ks, q0, Network.Rounds)
    {
      r := r - 1;
      Network.DecryptRoundsNext(ks, q, r);
      q := DecryptRound(ks, r, q);
    }
  }

  /** Writes the four words of the state back into a[0 .. 3]. */
  method StoreState(a: array<bv32>, q: Quad)
    requires a.Length >= 4
    modifies a
    ensures a[..4] == Network.Words(q) && a[4..] == old(a[4..])
  {
    a[0], a[1], a[2], a[3] := q.x0, q.x1, q.x2, q.x3;
  }

  class SerpentManagedTransform {
    /** The caller's key array (referenced, not copied), or null after Reset. */
    var key: array?<bv8>
    /** The 33 four-word subkeys, or null after Reset. */
    var expandedKey: Nullable<seq<Quad>>

    ghost predicate Valid()
      reads this
    {
      expandedKey.NonNull? ==> Network.IsExpandedKey(expandedKey.value)
    }

    /** Keeps a reference to the key and computes its schedule. */
    constructor(rgbKey: array<bv8>)
      requires LegalKeyLength(rgbKey.Length)
      ensures Valid() && key == rgbKey
      ensures ExpandKey(rgbKey[..]).Success? && expandedKey == NonNull(ExpandKey(rgbKey[..]).value)
    {
      key := rgbKey;
      expandedKey := Null;
      new;
      ComputeKeySchedule();
    }

    /** Pads the key to eight words: the key's words, then a 1 word after a short key, then zeros. */
    method GetFullLengthKey() returns (fullKey: array<bv32>)
      requires key != null && LegalKeyLength(key.Length)
      ensures fresh(fullKey)
      ensures FullLengthKey(key[..]).Success? && fullKey[..] == FullLengthKey(key[..]).value
    {
      fullKey := new bv32[8](_ => 0);
      ghost var middleWords: seq<bv32>, highWords: seq<bv32> := [], [];
      var low := BytesToWordsLittleEndianRange(key, 0, 16);
      CopyTo(low, fullKey, 0);
      assert fullKey[..] == low[..] + [0, 0, 0, 0];
      if key.Length > 16 {
        var middle := BytesToWordsLittleEndianRange(key, 16, 8);
        CopyTo(middle, fullKey, 4);
        middleWords := middle[..];
        assert key[16..24] == key[..][16..24];
        assert fullKey[..] == low[..] + middleWords + [0, 0];
        if key.Length > 24 {
          var high := BytesToWordsLittleEndianRange(key, 24, 8);
          CopyTo(high, fullKey, 6);
          highWords := high[..];
          assert key[24..32] == key[..][24..32];
          assert fullKey[..] == low[..] + middleWords + highWords;
        } else {
          fullKey[6] := 1;
          assert fullKey[..] == low[..] + middleWords + [1, 0];
        }
      } else {
        fullKey[4] := 1;
        assert fullKey[..] == low[..] + [1, 0, 0, 0];
      }
      assert key[0..16] == key[..][..16];
      FullLengthKeyLayout(key[..], low[..], middleWords, highWords);
    }

    /**
     * Computes the 132 prekeys from the padded key and then the 33 subkeys through the S-box
     * table, and stores the subkeys as the expanded key.
     */
    method ComputeKeySchedule()
      requires key != null && LegalKeyLength(key.Length)
      modifies this
      ensures Valid() && key == old(key)
      ensures ExpandKey(key[..]).Success? && expandedKey == NonNull(ExpandKey(key[..]).value)
    {
      var fullKey := GetFullLengthKey();
      var workingKey := ComputePrekeys(fullKey[..]);
      var subkeys := ComputeSubkeys(workingKey[..]);
      expandedKey := NonNull(subkeys);
    }

    /** The 32 rounds of encryption applied to the four words plain[0 .. 3], in place. */
    method Encrypt(plain: array<bv32>)
      requires Valid() && expandedKey.NonNull? && plain.Length >= 4
      modifies plain
      ensures plain[..4] == Network.Words(Network.Encrypt(expandedKey.value, Network.ToQuad(old(plain[..4]))))
      ensures plain[4..] == old(plain[4..])
    {
      var q := Quad(plain[0], plain[1], plain[2], plain[3]);
      assert q == Network.ToQuad(plain[..4]);
      q := EncryptRounds(expandedKey.value, q);
      StoreState(plain, q);
    }

    /** The 32 rounds of decryption, last round first, applied to the four words cipher[0 .. 3], in place. */
    method Decrypt(cipher: array<bv32>)
      requires Valid() && expandedKey.NonNull? && cipher.Length >= 4
      modifies cipher
      ensures cipher[..4] == Network.Words(Network.Decrypt(expandedKey.value, Network.ToQuad(old(cipher[..4]))))
      ensures cipher[4..] == old(cipher[4..])
    {
      var q := Quad(cipher[0], cipher[1], cipher[2], cipher[3]);
      assert q == Network.ToQuad(cipher[..4]);
      q := DecryptRounds(expandedKey.value, q);
      StoreState(cipher, q);
    }

    /** Encrypts a 16-byte block in place: read as little-endian words, encrypted, written back. */
    method EncryptBlock(block: array<bv8>)
      requires Valid() && expandedKey.NonNull? && block.Length == 16
      modifies block
      ensures block[..] == Network.EncryptBlock(expandedKey.value, old(block[..]))
    {
      var words := BytesToWordsLittleEndian(block);
      Encrypt(words);
      WriteWordsIntoBytesLittleEndian(words, block);
      assert words[..block.Length / 4] == words[..4];
    }

    /** Decrypts a 16-byte block in place: read as little-endian words, decrypted, written back. */
    method DecryptBlock(block: array<bv8>)
      requires Valid() && expandedKey.NonNull? && block.Length == 16
      modifies block
      ensures block[..] == Network.DecryptBlock(expandedKey.value, old(block[..]))
    {
      var words := BytesToWordsLittleEndian(block);
      Decrypt(words);
      WriteWordsIntoBytesLittleEndian(words, block);
      assert words[..block.Length / 4] == words[..4];
    }

    /** Zeroes the key and drops it and the expanded key. */
    method Reset()
      modifies this, key
      ensures key == null && expandedKey == Null && Valid()
      ensures old(key) != null ==> old(key)[..] == Zeros(old(key).Length)
    {
      if key != null {
        Clear(key);
        key := null;
      }
      if expandedKey.NonNull? {
        expandedKey := Null;
      }
    }
  }
}
