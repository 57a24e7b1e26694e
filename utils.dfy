/** Byte/word conversions of Crypto/Utils.cs, and the stream-mode test the engine uses. */
module Utils {
  import opened Enums

  /** CFB, OFB and CTR turn the block cipher into a stream cipher: no padding is needed. */
  predicate IsStreamMode(mode: ExtendedCipherMode)
  {
    mode == CFB || mode == OFB || mode == CTR
  }

  // ---- 16-bit words, big-endian ----

  /** The word whose 2 bytes, in memory order, are the arguments. */
  function Word16BE(b0: bv8, b1: bv8): bv16
  {
    ((b0 as bv16) << 8) | (b1 as bv16)
  }

  /** The 2 bytes of x in big-endian order. */
  function Bytes16BE(x: bv16): seq<bv8>
  {
    [((x >> 8) & 0xff) as bv8, (x & 0xff) as bv8]
  }

  /** Consecutive groups of 2 bytes read as words; a trailing partial group is ignored. */
  function BytesToWords16BE(s: seq<bv8>): (ws: seq<bv16>)
    ensures |ws| == |s| / 2
    decreases |s|
  {
    if |s| < 2 then []
    else [Word16BE(s[0], s[1])] + BytesToWords16BE(s[2..])
  }

  /** Every word written as 2 bytes, in order. */
  function WordsToBytes16BE(ws: seq<bv16>): (s: seq<bv8>)
    ensures |s| == 2 * |ws|
  {
    if ws == [] then [] else Bytes16BE(ws[0]) + WordsToBytes16BE(ws[1..])
  }

  /** Encoding a word and decoding its bytes gives the word back. */
  lemma Word16BEOfBytes(x: bv16)
    ensures var b := Bytes16BE(x); Word16BE(b[0], b[1]) == x
  {
  }

  /** Decoding 2 bytes into a word and encoding it gives the bytes back. */
  lemma Bytes16BEOfWord(b0: bv8, b1: bv8)
    ensures Bytes16BE(Word16BE(b0, b1)) == [b0, b1]
  {
  }

  /** Reading a byte string whose length is a multiple of 2 as words and writing them back is the identity. */
  lemma {:induction false} WordsToBytes16BERoundTrip(s: seq<bv8>)
    requires |s| % 2 == 0
    ensures WordsToBytes16BE(BytesToWords16BE(s)) == s
    decreases |s|
  {
    if |s| >= 2 {
      WordsToBytes16BERoundTrip(s[2..]);
      Bytes16BEOfWord(s[0], s[1]);
      assert s == s[..2] + s[2..];
    }
  }

  /** Writing words as bytes and reading them back is the identity. */
  lemma {:induction false} BytesToWords16BERoundTrip(ws: seq<bv16>)
    ensures BytesToWords16BE(WordsToBytes16BE(ws)) == ws
  {
    if ws != [] {
      BytesToWords16BERoundTrip(ws[1..]);
      Word16BEOfBytes(ws[0]);
      var s := WordsToBytes16BE(ws);
      assert s[2..] == WordsToBytes16BE(ws[1..]);
      assert ws == [ws[0]] + ws[1..];
    }
  }

  /** Encoding one more word appends its 2 bytes. */
  lemma {:induction false} WordsToBytes16BEAppend(ws: seq<bv16>, x: bv16)
    ensures WordsToBytes16BE(ws + [x]) == WordsToBytes16BE(ws) + Bytes16BE(x)
  {
    if ws != [] {
      WordsToBytes16BEAppend(ws[1..], x);
      assert (ws + [x])[1..] == ws[1..] + [x];
    }
  }

  /** The encoding of a prefix of ws, extended by the next word. */
  lemma WordsToBytes16BEStep(ws: seq<bv16>, k: int, prefix: seq<bv8>)
    requires 0 <= k < |ws| && prefix == WordsToBytes16BE(ws[..k])
    ensures prefix + Bytes16BE(ws[k]) == WordsToBytes16BE(ws[..k + 1])
  {
    assert ws[..k + 1] == ws[..k] + [ws[k]];
    WordsToBytes16BEAppend(ws[..k], ws[k]);
  }

  /** Decoding 2 more bytes appends one word. */
  lemma {:induction false} BytesToWords16BEAppend(s: seq<bv8>, t: seq<bv8>)
    requires |s| % 2 == 0 && |t| == 2
    ensures BytesToWords16BE(s + t) == BytesToWords16BE(s) + [Word16BE(t[0], t[1])]
    decreases |s|
  {
    if |s| >= 2 {
      BytesToWords16BEAppend(s[2..], t);
      assert (s + t)[2..] == s[2..] + t;
    }
  }

  /** The decoding of s[from..k], extended by the next 2 bytes. */
  lemma BytesToWords16BEStep(s: seq<bv8>, from: int, k: int)
    requires 0 <= from <= k && k + 2 <= |s| && (k - from) % 2 == 0
    ensures BytesToWords16BE(s[from..k + 2]) == BytesToWords16BE(s[from..k]) + [Word16BE(s[k], s[k + 1])]
  {
    assert s[from..k + 2] == s[from..k] + s[k..k + 2];
    BytesToWords16BEAppend(s[from..k], s[k..k + 2]);
  }

  /** The same step read off an array. */
  lemma BytesToWords16BEStepArray(bytes: array<bv8>, from: int, k: int)
    requires 0 <= from <= k && k + 2 <= bytes.Length && (k - from) % 2 == 0
    ensures BytesToWords16BE(bytes[from..k + 2]) == BytesToWords16BE(bytes[from..k]) + [Word16BE(bytes[k], bytes[k + 1])]
  {
    BytesToWords16BEStep(bytes[..], from, k);
    assert bytes[..][from..k + 2] == bytes[from..k + 2] && bytes[..][from..k] == bytes[from..k];
  }

  // ---- 16-bit words, little-endian ----

  /** The word whose 2 bytes, in memory order, are the arguments. */
  function Word16LE(b0: bv8, b1: bv8): bv16
  {
    (b0 as bv16) | ((b1 as bv16) << 8)
  }

  /** The 2 bytes of x in little-endian order. */
  function Bytes16LE(x: bv16): seq<bv8>
  {
    [(x & 0xff) as bv8, ((x >> 8) & 0xff) as bv8]
  }

  /** Consecutive groups of 2 bytes read as words; a trailing partial group is ignored. */
  function BytesToWords16LE(s: seq<bv8>): (ws: seq<bv16>)
    ensures |ws| == |s| / 2
    decreases |s|
  {
    if |s| < 2 then []
    else [Word16LE(s[0], s[1])] + BytesToWords16LE(s[2..])
  }

  /** Every word written as 2 bytes, in order. */
  function WordsToBytes16LE(ws: seq<bv16>): (s: seq<bv8>)
    ensures |s| == 2 * |ws|
  {
    if ws == [] then [] else Bytes16LE(ws[0]) + WordsToBytes16LE(ws[1..])
  }

  /** Encoding a word and decoding its bytes gives the word back. */
  lemma Word16LEOfBytes(x: bv16)
    ensures var b := Bytes16LE(x); Word16LE(b[0], b[1]) == x
  {
  }

  /** Decoding 2 bytes into a word and encoding it gives the bytes back. */
  lemma Bytes16LEOfWord(b0: bv8, b1: bv8)
    ensures Bytes16LE(Word16LE(b0, b1)) == [b0, b1]
  {
  }

  /** Reading a byte string whose length is a multiple of 2 as words and writing them back is the identity. */
  lemma {:induction false} WordsToBytes16LERoundTrip(s: seq<bv8>)
    requires |s| % 2 == 0
    ensures WordsToBytes16LE(BytesToWords16LE(s)) == s
    decreases |s|
  {
    if |s| >= 2 {
      WordsToBytes16LERoundTrip(s[2..]);
      Bytes16LEOfWord(s[0], s[1]);
      assert s == s[..2] + s[2..];
    }
  }

  /** Writing words as bytes and reading them back is the identity. */
  lemma {:induction false} BytesToWords16LERoundTrip(ws: seq<bv16>)
    ensures BytesToWords16LE(WordsToBytes16LE(ws)) == ws
  {
    if ws != [] {
      BytesToWords16LERoundTrip(ws[1..]);
      Word16LEOfBytes(ws[0]);
      var s := WordsToBytes16LE(ws);
      assert s[2..] == WordsToBytes16LE(ws[1..]);
      assert ws == [ws[0]] + ws[1..];
    }
  }

  /** Encoding one more word appends its 2 bytes. */
  lemma {:induction false} WordsToBytes16LEAppend(ws: seq<bv16>, x: bv16)
    ensures WordsToBytes16LE(ws + [x]) == WordsToBytes16LE(ws) + Bytes16LE(x)
  {
    if ws != [] {
      WordsToBytes16LEAppend(ws[1..], x);
      assert (ws + [x])[1..] == ws[1..] + [x];
    }
  }

  /** The encoding of a prefix of ws, extended by the next word. */
  lemma WordsToBytes16LEStep(ws: seq<bv16>, k: int, prefix: seq<bv8>)
    requires 0 <= k < |ws| && prefix == WordsToBytes16LE(ws[..k])
    ensures prefix + Bytes16LE(ws[k]) == WordsToBytes16LE(ws[..k + 1])
  {
    assert ws[..k + 1] == ws[..k] + [ws[k]];
    WordsToBytes16LEAppend(ws[..k], ws[k]);
  }

  /** Decoding 2 more bytes appends one word. */
  lemma {:induction false} BytesToWords16LEAppend(s: seq<bv8>, t: seq<bv8>)
    requires |s| % 2 == 0 && |t| == 2
    ensures BytesToWords16LE(s + t) == BytesToWords16LE(s) + [Word16LE(t[0], t[1])]
    decreases |s|
  {
    if |s| >= 2 {
      BytesToWords16LEAppend(s[2..], t);
      assert (s + t)[2..] == s[2..] + t;
    }
  }

  /** The decoding of s[from..k], extended by the next 2 bytes. */
  lemma BytesToWords16LEStep(s: seq<bv8>, from: int, k: int)
    requires 0 <= from <= k && k + 2 <= |s| && (k - from) % 2 == 0
    ensures BytesToWords16LE(s[from..k + 2]) == BytesToWords16LE(s[from..k]) + [Word16LE(s[k], s[k + 1])]
  {
    assert s[from..k + 2] == s[from..k] + s[k..k + 2];
    BytesToWords16LEAppend(s[from..k], s[k..k + 2]);
  }

  /** The same step read off an array. */
  lemma BytesToWords16LEStepArray(bytes: array<bv8>, from: int, k: int)
    requires 0 <= from <= k && k + 2 <= bytes.Length && (k - from) % 2 == 0
    ensures BytesToWords16LE(bytes[from..k + 2]) == BytesToWords16LE(bytes[from..k]) + [Word16LE(bytes[k], bytes[k + 1])]
  {
    BytesToWords16LEStep(bytes[..], from, k);
    assert bytes[..][from..k + 2] == bytes[from..k + 2] && bytes[..][from..k] == bytes[from..k];
  }

  // ---- 32-bit words, big-endian ----

  /** The word whose 4 bytes, in memory order, are the arguments. */
  function Word32BE(b0: bv8, b1: bv8, b2: bv8, b3: bv8): bv32
  {
    ((b0 as bv32) << 24) | ((b1 as bv32) << 16) | ((b2 as bv32) << 8) | (b3 as bv32)
  }

  /** The 4 bytes of x in big-endian order. */
  function Bytes32BE(x: bv32): seq<bv8>
  {
    [((x >> 24) & 0xff) as bv8, ((x >> 16) & 0xff) as bv8, ((x >> 8) & 0xff) as bv8, (x & 0xff) as bv8]
  }

  /** Consecutive groups of 4 bytes read as words; a trailing partial group is ignored. */
  function BytesToWords32BE(s: seq<bv8>): (ws: seq<bv32>)
    ensures |ws| == |s| / 4
    decreases |s|
  {
    if |s| < 4 then []
    else [Word32BE(s[0], s[1], s[2], s[3])] + BytesToWords32BE(s[4..])
  }

  /** Every word written as 4 bytes, in order. */
  function WordsToBytes32BE(ws: seq<bv32>): (s: seq<bv8>)
    ensures |s| == 4 * |ws|
  {
    if ws == [] then [] else Bytes32BE(ws[0]) + WordsToBytes32BE(ws[1..])
  }

  /** Encoding a word and decoding its bytes gives the word back. */
  lemma Word32BEOfBytes(x: bv32)
    ensures var b := Bytes32BE(x); Word32BE(b[0], b[1], b[2], b[3]) == x
  {
  }

  /** Decoding 4 bytes into a word and encoding it gives the bytes back. */
  lemma Bytes32BEOfWord(b0: bv8, b1: bv8, b2: bv8, b3: bv8)
    ensures Bytes32BE(Word32BE(b0, b1, b2, b3)) == [b0, b1, b2, b3]
  {
  }

  /** Reading a byte string whose length is a multiple of 4 as words and writing them back is the identity. */
  lemma {:induction false} WordsToBytes32BERoundTrip(s: seq<bv8>)
    requires |s| % 4 == 0
    ensures WordsToBytes32BE(BytesToWords32BE(s)) == s
    decreases |s|
  {
    if |s| >= 4 {
      WordsToBytes32BERoundTrip(s[4..]);
      Bytes32BEOfWord(s[0], s[1], s[2], s[3]);
      assert s == s[..4] + s[4..];
    }
  }

  /** Writing words as bytes and reading them back is the identity. */
  lemma {:induction false} BytesToWords32BERoundTrip(ws: seq<bv32>)
    ensures BytesToWords32BE(WordsToBytes32BE(ws)) == ws
  {
    if ws != [] {
      BytesToWords32BERoundTrip(ws[1..]);
      Word32BEOfBytes(ws[0]);
      var s := WordsToBytes32BE(ws);
      assert s[4..] == WordsToBytes32BE(ws[1..]);
      assert ws == [ws[0]] + ws[1..];
    }
  }

  /** Encoding one more word appends its 4 bytes. */
  lemma {:induction false} WordsToBytes32BEAppend(ws: seq<bv32>, x: bv32)
    ensures WordsToBytes32BE(ws + [x]) == WordsToBytes32BE(ws) + Bytes32BE(x)
  {
    if ws != [] {
      WordsToBytes32BEAppend(ws[1..], x);
      assert (ws + [x])[1..] == ws[1..] + [x];
    }
  }

  /** The encoding of a prefix of ws, extended by the next word. */
  lemma WordsToBytes32BEStep(ws: seq<bv32>, k: int, prefix: seq<bv8>)
    requires 0 <= k < |ws| && prefix == WordsToBytes32BE(ws[..k])
    ensures prefix + Bytes32BE(ws[k]) == WordsToBytes32BE(ws[..k + 1])
  {
    assert ws[..k + 1] == ws[..k] + [ws[k]];
    WordsToBytes32BEAppend(ws[..k], ws[k]);
  }

  /** Decoding 4 more bytes appends one word. */
  lemma {:induction false} BytesToWords32BEAppend(s: seq<bv8>, t: seq<bv8>)
    requires |s| % 4 == 0 && |t| == 4
    ensures BytesToWords32BE(s + t) == BytesToWords32BE(s) + [Word32BE(t[0], t[1], t[2], t[3])]
    decreases |s|
  {
    if |s| >= 4 {
      BytesToWords32BEAppend(s[4..], t);
      assert (s + t)[4..] == s[4..] + t;
    }
  }

  /** The decoding of s[from..k], extended by the next 4 bytes. */
  lemma BytesToWords32BEStep(s: seq<bv8>, from: int, k: int)
    requires 0 <= from <= k && k + 4 <= |s| && (k - from) % 4 == 0
    ensures BytesToWords32BE(s[from..k + 4]) == BytesToWords32BE(s[from..k]) + [Word32BE(s[k], s[k + 1], s[k + 2], s[k + 3])]
  {
    assert s[from..k + 4] == s[from..k] + s[k..k + 4];
    BytesToWords32BEAppend(s[from..k], s[k..k + 4]);
  }

  /** The same step read off an array. */
  lemma BytesToWords32BEStepArray(bytes: array<bv8>, from: int, k: int)
    requires 0 <= from <= k && k + 4 <= bytes.Length && (k - from) % 4 == 0
    ensures BytesToWords32BE(bytes[from..k + 4]) == BytesToWords32BE(bytes[from..k]) + [Word32BE(bytes[k], bytes[k + 1], bytes[k + 2], bytes[k + 3])]
  {
    BytesToWords32BEStep(bytes[..], from, k);
    assert bytes[..][from..k + 4] == bytes[from..k + 4] && bytes[..][from..k] == bytes[from..k];
  }

  // ---- 32-bit words, little-endian ----

  /** The word whose 4 bytes, in memory order, are the arguments. */
  function Word32LE(b0: bv8, b1: bv8, b2: bv8, b3: bv8): bv32
  {
    (b0 as bv32) | ((b1 as bv32) << 8) | ((b2 as bv32) << 16) | ((b3 as bv32) << 24)
  }

  /** The 4 bytes of x in little-endian order. */
  function Bytes32LE(x: bv32): seq<bv8>
  {
    [(x & 0xff) as bv8, ((x >> 8) & 0xff) as bv8, ((x >> 16) & 0xff) as bv8, ((x >> 24) & 0xff) as bv8]
  }

  /** Consecutive groups of 4 bytes read as words; a trailing partial group is ignored. */
  function BytesToWords32LE(s: seq<bv8>): (ws: seq<bv32>)
    ensures |ws| == |s| / 4
    decreases |s|
  {
    if |s| < 4 then []
    else [Word32LE(s[0], s[1], s[2], s[3])] + BytesToWords32LE(s[4..])
  }

  /** Every word written as 4 bytes, in order. */
  function WordsToBytes32LE(ws: seq<bv32>): (s: seq<bv8>)
    ensures |s| == 4 * |ws|
  {
    if ws == [] then [] else Bytes32LE(ws[0]) + WordsToBytes32LE(ws[1..])
  }

  /** Encoding a word and decoding its bytes gives the word back. */
  lemma Word32LEOfBytes(x: bv32)
    ensures var b := Bytes32LE(x); Word32LE(b[0], b[1], b[2], b[3]) == x
  {
  }

  /** Decoding 4 bytes into a word and encoding it gives the bytes back. */
  lemma Bytes32LEOfWord(b0: bv8, b1: bv8, b2: bv8, b3: bv8)
    ensures Bytes32LE(Word32LE(b0, b1, b2, b3)) == [b0, b1, b2, b3]
  {
  }

  /** Reading a byte string whose length is a multiple of 4 as words and writing them back is the identity. */
  lemma {:induction false} WordsToBytes32LERoundTrip(s: seq<bv8>)
    requires |s| % 4 == 0
    ensures WordsToBytes32LE(BytesToWords32LE(s)) == s
    decreases |s|
  {
    if |s| >= 4 {
      WordsToBytes32LERoundTrip(s[4..]);
      Bytes32LEOfWord(s[0], s[1], s[2], s[3]);
      assert s == s[..4] + s[4..];
    }
  }

  /** Writing words as bytes and reading them back is the identity. */
  lemma {:induction false} BytesToWords32LERoundTrip(ws: seq<bv32>)
    ensures BytesToWords32LE(WordsToBytes32LE(ws)) == ws
  {
    if ws != [] {
      BytesToWords32LERoundTrip(ws[1..]);
      Word32LEOfBytes(ws[0]);
      var s := WordsToBytes32LE(ws);
      assert s[4..] == WordsToBytes32LE(ws[1..]);
      assert ws == [ws[0]] + ws[1..];
    }
  }

  /** Encoding one more word appends its 4 bytes. */
  lemma {:induction false} WordsToBytes32LEAppend(ws: seq<bv32>, x: bv32)
    ensures WordsToBytes32LE(ws + [x]) == WordsToBytes32LE(ws) + Bytes32LE(x)
  {
    if ws != [] {
      WordsToBytes32LEAppend(ws[1..], x);
      assert (ws + [x])[1..] == ws[1..] + [x];
    }
  }

  /** The encoding of a prefix of ws, extended by the next word. */
  lemma WordsToBytes32LEStep(ws: seq<bv32>, k: int, prefix: seq<bv8>)
    requires 0 <= k < |ws| && prefix == WordsToBytes32LE(ws[..k])
    ensures prefix + Bytes32LE(ws[k]) == WordsToBytes32LE(ws[..k + 1])
  {
    assert ws[..k + 1] == ws[..k] + [ws[k]];
    WordsToBytes32LEAppend(ws[..k], ws[k]);
  }

  /** Decoding 4 more bytes appends one word. */
  lemma {:induction false} BytesToWords32LEAppend(s: seq<bv8>, t: seq<bv8>)
    requires |s| % 4 == 0 && |t| == 4
    ensures BytesToWords32LE(s + t) == BytesToWords32LE(s) + [Word32LE(t[0], t[1], t[2], t[3])]
    decreases |s|
  {
    if |s| >= 4 {
      BytesToWords32LEAppend(s[4..], t);
      assert (s + t)[4..] == s[4..] + t;
    }
  }

  /** The decoding of s[from..k], extended by the next 4 bytes. */
  lemma BytesToWords32LEStep(s: seq<bv8>, from: int, k: int)
    requires 0 <= from <= k && k + 4 <= |s| && (k - from) % 4 == 0
    ensures BytesToWords32LE(s[from..k + 4]) == BytesToWords32LE(s[from..k]) + [Word32LE(s[k], s[k + 1], s[k + 2], s[k + 3])]
  {
    assert s[from..k + 4] == s[from..k] + s[k..k + 4];
    BytesToWords32LEAppend(s[from..k], s[k..k + 4]);
  }

  /** The same step read off an array. */
  lemma BytesToWords32LEStepArray(bytes: array<bv8>, from: int, k: int)
    requires 0 <= from <= k && k + 4 <= bytes.Length && (k - from) % 4 == 0
    ensures BytesToWords32LE(bytes[from..k + 4]) == BytesToWords32LE(bytes[from..k]) + [Word32LE(bytes[k], bytes[k + 1], bytes[k + 2], bytes[k + 3])]
  {
    BytesToWords32LEStep(bytes[..], from, k);
    assert bytes[..][from..k + 4] == bytes[from..k + 4] && bytes[..][from..k] == bytes[from..k];
  }

  // ---- 64-bit words, big-endian ----

  /** The word whose 8 bytes, in memory order, are the arguments. */
  function Word64BE(b0: bv8, b1: bv8, b2: bv8, b3: bv8, b4: bv8, b5: bv8, b6: bv8, b7: bv8): bv64
  {
    ((b0 as bv64) << 56) | ((b1 as bv64) << 48) | ((b2 as bv64) << 40) | ((b3 as bv64) << 32) | ((b4 as bv64) << 24) | ((b5 as bv64) << 16) | ((b6 as bv64) << 8) | (b7 as bv64)
  }

  /** The 8 bytes of x in big-endian order. */
  function Bytes64BE(x: bv64): seq<bv8>
  {
    [((x >> 56) & 0xff) as bv8, ((x >> 48) & 0xff) as bv8, ((x >> 40) & 0xff) as bv8, ((x >> 32) & 0xff) as bv8, ((x >> 24) & 0xff) as bv8, ((x >> 16) & 0xff) as bv8, ((x >> 8) & 0xff) as bv8, (x & 0xff) as bv8]
  }

  /** Consecutive groups of 8 bytes read as words; a trailing partial group is ignored. */
  function BytesToWords64BE(s: seq<bv8>): (ws: seq<bv64>)
    ensures |ws| == |s| / 8
    decreases |s|
  {
    if |s| < 8 then []
    else [Word64BE(s[0], s[1], s[2], s[3], s[4], s[5], s[6], s[7])] + BytesToWords64BE(s[8..])
  }

  /** Every word written as 8 bytes, in order. */
  function WordsToBytes64BE(ws: seq<bv64>): (s: seq<bv8>)
    ensures |s| == 8 * |ws|
  {
    if ws == [] then [] else Bytes64BE(ws[0]) + WordsToBytes64BE(ws[1..])
  }

  /** Encoding a word and decoding its bytes gives the word back. */
  lemma Word64BEOfBytes(x: bv64)
    ensures var b := Bytes64BE(x); Word64BE(b[0], b[1], b[2], b[3], b[4], b[5], b[6], b[7]) == x
  {
  }

  /** Decoding 8 bytes into a word and encoding it gives the bytes back. */
  lemma Bytes64BEOfWord(b0: bv8, b1: bv8, b2: bv8, b3: bv8, b4: bv8, b5: bv8, b6: bv8, b7: bv8)
    ensures Bytes64BE(Word64BE(b0, b1, b2, b3, b4, b5, b6, b7)) == [b0, b1, b2, b3, b4, b5, b6, b7]
  {
  }

  /** Reading a byte string whose length is a multiple of 8 as words and writing them back is the identity. */
  lemma {:induction false} WordsToBytes64BERoundTrip(s: seq<bv8>)
    requires |s| % 8 == 0
    ensures WordsToBytes64BE(BytesToWords64BE(s)) == s
    decreases |s|
  {
    if |s| >= 8 {
      var w := Word64BE(s[0], s[1], s[2], s[3], s[4], s[5], s[6], s[7]);
      var ws := BytesToWords64BE(s[8..]);
      WordsToBytes64BERoundTrip(s[8..]);
      Bytes64BEOfWord(s[0], s[1], s[2], s[3], s[4], s[5], s[6], s[7]);
      assert BytesToWords64BE(s) == [w] + ws;
      assert ([w] + ws)[1..] == ws;
      assert WordsToBytes64BE([w] + ws) == Bytes64BE(w) + WordsToBytes64BE(ws);
      assert s == [s[0], s[1], s[2], s[3], s[4], s[5], s[6], s[7]] + s[8..];
    }
  }

  /** Writing words as bytes and reading them back is the identity. */
  lemma {:induction false} BytesToWords64BERoundTrip(ws: seq<bv64>)
    ensures BytesToWords64BE(WordsToBytes64BE(ws)) == ws
  {
    if ws != [] {
      BytesToWords64BERoundTrip(ws[1..]);
      Word64BEOfBytes(ws[0]);
      var s := WordsToBytes64BE(ws);
      assert s[8..] == WordsToBytes64BE(ws[1..]);
      assert ws == [ws[0]] + ws[1..];
    }
  }

  /** Encoding one more word appends its 8 bytes. */
  lemma {:induction false} WordsToBytes64BEAppend(ws: seq<bv64>, x: bv64)
    ensures WordsToBytes64BE(ws + [x]) == WordsToBytes64BE(ws) + Bytes64BE(x)
  {
    if ws != [] {
      WordsToBytes64BEAppend(ws[1..], x);
      assert (ws + [x])[1..] == ws[1..] + [x];
    }
  }

  /** The encoding of a prefix of ws, extended by the next word. */
  lemma WordsToBytes64BEStep(ws: seq<bv64>, k: int, prefix: seq<bv8>)
    requires 0 <= k < |ws| && prefix == WordsToBytes64BE(ws[..k])
    ensures prefix + Bytes64BE(ws[k]) == WordsToBytes64BE(ws[..k + 1])
  {
    assert ws[..k + 1] == ws[..k] + [ws[k]];
    WordsToBytes64BEAppend(ws[..k], ws[k]);
  }

  /** Decoding 8 more bytes appends one word. */
  lemma {:induction false} BytesToWords64BEAppend(s: seq<bv8>, t: seq<bv8>)
    requires |s| % 8 == 0 && |t| == 8
    ensures BytesToWords64BE(s + t) == BytesToWords64BE(s) + [Word64BE(t[0], t[1], t[2], t[3], t[4], t[5], t[6], t[7])]
    decreases |s|
  {
    if |s| >= 8 {
      BytesToWords64BEAppend(s[8..], t);
      assert (s + t)[8..] == s[8..] + t;
    }
  }

  /** The decoding of s[from..k], extended by the next 8 bytes. */
  lemma BytesToWords64BEStep(s: seq<bv8>, from: int, k: int)
    requires 0 <= from <= k && k + 8 <= |s| && (k - from) % 8 == 0
    ensures BytesToWords64BE(s[from..k + 8]) == BytesToWords64BE(s[from..k]) + [Word64BE(s[k], s[k + 1], s[k + 2], s[k + 3], s[k + 4], s[k + 5], s[k + 6], s[k + 7])]
  {
    assert s[from..k + 8] == s[from..k] + s[k..k + 8];
    BytesToWords64BEAppend(s[from..k], s[k..k + 8]);
  }

  /** The same step read off an array. */
  lemma BytesToWords64BEStepArray(bytes: array<bv8>, from: int, k: int)
    requires 0 <= from <= k && k + 8 <= bytes.Length && (k - from) % 8 == 0
    ensures BytesToWords64BE(bytes[from..k + 8]) == BytesToWords64BE(bytes[from..k]) + [Word64BE(bytes[k], bytes[k + 1], bytes[k + 2], bytes[k + 3], bytes[k + 4], bytes[k + 5], bytes[k + 6], bytes[k + 7])]
  {
    BytesToWords64BEStep(bytes[..], from, k);
    assert bytes[..][from..k + 8] == bytes[from..k + 8] && bytes[..][from..k] == bytes[from..k];
  }

  // ---- 64-bit words, little-endian ----

  /** The word whose 8 bytes, in memory order, are the arguments. */
  function Word64LE(b0: bv8, b1: bv8, b2: bv8, b3: bv8, b4: bv8, b5: bv8, b6: bv8, b7: bv8): bv64
  {
    (b0 as bv64) | ((b1 as bv64) << 8) | ((b2 as bv64) << 16) | ((b3 as bv64) << 24) | ((b4 as bv64) << 32) | ((b5 as bv64) << 40) | ((b6 as bv64) << 48) | ((b7 as bv64) << 56)
  }

  /** The 8 bytes of x in little-endian order. */
  function Bytes64LE(x: bv64): seq<bv8>
  {
    [(x & 0xff) as bv8, ((x >> 8) & 0xff) as bv8, ((x >> 16) & 0xff) as bv8, ((x >> 24) & 0xff) as bv8, ((x >> 32) & 0xff) as bv8, ((x >> 40) & 0xff) as bv8, ((x >> 48) & 0xff) as bv8, ((x >> 56) & 0xff) as bv8]
  }

  /** Consecutive groups of 8 bytes read as words; a trailing partial group is ignored. */
  function BytesToWords64LE(s: seq<bv8>): (ws: seq<bv64>)
    ensures |ws| == |s| / 8
    decreases |s|
  {
    if |s| < 8 then []
    else [Word64LE(s[0], s[1], s[2], s[3], s[4], s[5], s[6], s[7])] + BytesToWords64LE(s[8..])
  }

  /** Every word written as 8 bytes, in order. */
  function WordsToBytes64LE(ws: seq<bv64>): (s: seq<bv8>)
    ensures |s| == 8 * |ws|
  {
    if ws == [] then [] else Bytes64LE(ws[0]) + WordsToBytes64LE(ws[1..])
  }

  /** Encoding a word and decoding its bytes gives the word back. */
  lemma Word64LEOfBytes(x: bv64)
    ensures var b := Bytes64LE(x); Word64LE(b[0], b[1], b[2], b[3], b[4], b[5], b[6], b[7]) == x
  {
  }

  /** Decoding 8 bytes into a word and encoding it gives the bytes back. */
  lemma Bytes64LEOfWord(b0: bv8, b1: bv8, b2: bv8, b3: bv8, b4: bv8, b5: bv8, b6: bv8, b7: bv8)
    ensures Bytes64LE(Word64LE(b0, b1, b2, b3, b4, b5, b6, b7)) == [b0, b1, b2, b3, b4, b5, b6, b7]
  {
  }

  /** Reading a byte string whose length is a multiple of 8 as words and writing them back is the identity. */
  lemma {:induction false} WordsToBytes64LERoundTrip(s: seq<bv8>)
    requires |s| % 8 == 0
    ensures WordsToBytes64LE(BytesToWords64LE(s)) == s
    decreases |s|
  {
    if |s| >= 8 {
      WordsToBytes64LERoundTrip(s[8..]);
      Bytes64LEOfWord(s[0], s[1], s[2], s[3], s[4], s[5], s[6], s[7]);
      assert s == s[..8] + s[8..];
    }
  }

  /** Writing words as bytes and reading them back is the identity. */
  lemma {:induction false} BytesToWords64LERoundTrip(ws: seq<bv64>)
    ensures BytesToWords64LE(WordsToBytes64LE(ws)) == ws
  {
    if ws != [] {
      BytesToWords64LERoundTrip(ws[1..]);
      Word64LEOfBytes(ws[0]);
      var s := WordsToBytes64LE(ws);
      assert s[8..] == WordsToBytes64LE(ws[1..]);
      assert ws == [ws[0]] + ws[1..];
    }
  }

  /** Encoding one more word appends its 8 bytes. */
  lemma {:induction false} WordsToBytes64LEAppend(ws: seq<bv64>, x: bv64)
    ensures WordsToBytes64LE(ws + [x]) == WordsToBytes64LE(ws) + Bytes64LE(x)
  {
    if ws != [] {
      WordsToBytes64LEAppend(ws[1..], x);
      assert (ws + [x])[1..] == ws[1..] + [x];
    }
  }

  /** The encoding of a prefix of ws, extended by the next word. */
  lemma WordsToBytes64LEStep(ws: seq<bv64>, k: int, prefix: seq<bv8>)
    requires 0 <= k < |ws| && prefix == WordsToBytes64LE(ws[..k])
    ensures prefix + Bytes64LE(ws[k]) == WordsToBytes64LE(ws[..k + 1])
  {
    assert ws[..k + 1] == ws[..k] + [ws[k]];
    WordsToBytes64LEAppend(ws[..k], ws[k]);
  }

  /** Decoding 8 more bytes appends one word. */
  lemma {:induction false} BytesToWords64LEAppend(s: seq<bv8>, t: seq<bv8>)
    requires |s| % 8 == 0 && |t| == 8
    ensures BytesToWords64LE(s + t) == BytesToWords64LE(s) + [Word64LE(t[0], t[1], t[2], t[3], t[4], t[5], t[6], t[7])]
    decreases |s|
  {
    if |s| >= 8 {
      BytesToWords64LEAppend(s[8..], t);
      assert (s + t)[8..] == s[8..] + t;
    }
  }

  /** The decoding of s[from..k], extended by the next 8 bytes. */
  lemma BytesToWords64LEStep(s: seq<bv8>, from: int, k: int)
    requires 0 <= from <= k && k + 8 <= |s| && (k - from) % 8 == 0
    ensures BytesToWords64LE(s[from..k + 8]) == BytesToWords64LE(s[from..k]) + [Word64LE(s[k], s[k + 1], s[k + 2], s[k + 3], s[k + 4], s[k + 5], s[k + 6], s[k + 7])]
  {
    assert s[from..k + 8] == s[from..k] + s[k..k + 8];
    BytesToWords64LEAppend(s[from..k], s[k..k + 8]);
  }

  /** The same step read off an array. */
  lemma BytesToWords64LEStepArray(bytes: array<bv8>, from: int, k: int)
    requires 0 <= from <= k && k + 8 <= bytes.Length && (k - from) % 8 == 0
    ensures BytesToWords64LE(bytes[from..k + 8]) == BytesToWords64LE(bytes[from..k]) + [Word64LE(bytes[k], bytes[k + 1], bytes[k + 2], bytes[k + 3], bytes[k + 4], bytes[k + 5], bytes[k + 6], bytes[k + 7])]
  {
    BytesToWords64LEStep(bytes[..], from, k);
    assert bytes[..][from..k + 8] == bytes[from..k + 8] && bytes[..][from..k] == bytes[from..k];
  }

  /** One iteration of the write loops: the 2 bytes of x stored from index `at`. */
  method Store16BE(bytes: array<bv8>, at: int, x: bv16)
    requires 0 <= at && at + 2 <= bytes.Length
    modifies bytes
    ensures bytes[..at] == old(bytes[..at]) && bytes[at..at + 2] == Bytes16BE(x)
  {
    bytes[at] := ((x >> 8) & 0xff) as bv8;
    bytes[at + 1] := (x & 0xff) as bv8;
  }

  /** Fills all of `bytes` with the leading words of `words`, 2 bytes per word. */
  method Write16BitWordsIntoBytesBigEndian(words: array<bv16>, bytes: array<bv8>)
    requires bytes.Length % 2 == 0 && bytes.Length / 2 <= words.Length
    modifies bytes
    ensures bytes[..] == WordsToBytes16BE(words[..bytes.Length / 2])
  {
    var byteCount := bytes.Length;
    var byteIndex, wordIndex := 0, 0;
    while byteIndex < byteCount
      invariant 0 <= byteIndex <= byteCount && byteIndex == 2 * wordIndex
      invariant bytes[..byteIndex] == WordsToBytes16BE(words[..wordIndex])
    {
      ghost var done := bytes[..byteIndex];
      ghost var ws := words[..];
      assert ws[..wordIndex] == words[..wordIndex] && ws[..wordIndex + 1] == words[..wordIndex + 1];
      Store16BE(bytes, byteIndex, words[wordIndex]);
      assert bytes[..byteIndex + 2] == bytes[..byteIndex] + bytes[byteIndex..byteIndex + 2];
      assert bytes[..byteIndex + 2] == done + Bytes16BE(ws[wordIndex]);
      WordsToBytes16BEStep(ws, wordIndex, done);
      byteIndex, wordIndex := byteIndex + 2, wordIndex + 1;
    }
    assert bytes[..] == bytes[..byteCount];
  }

  /** Reads all of `bytes` as 16-bit words into a new array. */
  method BytesTo16BitWordsBigEndian(bytes: array<bv8>) returns (words: array<bv16>)
    requires bytes.Length % 2 == 0
    ensures fresh(words)
    ensures words[..] == BytesToWords16BE(bytes[..])
  {
    var count := bytes.Length;
    words := new bv16[count / 2];
    var byteIndex, wordIndex := 0, 0;
    while byteIndex < count
      invariant 0 <= byteIndex <= count && byteIndex - 0 == 2 * wordIndex
      invariant words[..wordIndex] == BytesToWords16BE(bytes[0..byteIndex])
    {
      words[wordIndex] := Word16BE(bytes[byteIndex], bytes[byteIndex + 1]);
      BytesToWords16BEStepArray(bytes, 0, byteIndex);
      assert words[..wordIndex + 1] == words[..wordIndex] + [words[wordIndex]];
      byteIndex, wordIndex := byteIndex + 2, wordIndex + 1;
    }
    assert words[..] == words[..wordIndex] && bytes[..] == bytes[0..count];
  }

  /** One iteration of the write loops: the 2 bytes of x stored from index `at`. */
  method Store16LE(bytes: array<bv8>, at: int, x: bv16)
    requires 0 <= at && at + 2 <= bytes.Length
    modifies bytes
    ensures bytes[..at] == old(bytes[..at]) && bytes[at..at + 2] == Bytes16LE(x)
  {
    bytes[at] := (x & 0xff) as bv8;
    bytes[at + 1] := ((x >> 8) & 0xff) as bv8;
  }

  /** Fills all of `bytes` with the leading words of `words`, 2 bytes per word. */
  method Write16BitWordsIntoBytesLittleEndian(words: array<bv16>, bytes: array<bv8>)
    requires bytes.Length % 2 == 0 && bytes.Length / 2 <= words.Length
    modifies bytes
    ensures bytes[..] == WordsToBytes16LE(words[..bytes.Length / 2])
  {
    var byteCount := bytes.Length;
    var byteIndex, wordIndex := 0, 0;
    while byteIndex < byteCount
      invariant 0 <= byteIndex <= byteCount && byteIndex == 2 * wordIndex
      invariant bytes[..byteIndex] == WordsToBytes16LE(words[..wordIndex])
    {
      ghost var done := bytes[..byteIndex];
      ghost var ws := words[..];
      assert ws[..wordIndex] == words[..wordIndex] && ws[..wordIndex + 1] == words[..wordIndex + 1];
      Store16LE(bytes, byteIndex, words[wordIndex]);
      assert bytes[..byteIndex + 2] == bytes[..byteIndex] + bytes[byteIndex..byteIndex + 2];
      assert bytes[..byteIndex + 2] == done + Bytes16LE(ws[wordIndex]);
      WordsToBytes16LEStep(ws, wordIndex, done);
      byteIndex, wordIndex := byteIndex + 2, wordIndex + 1;
    }
    assert bytes[..] == bytes[..byteCount];
  }

  /** Reads all of `bytes` as 16-bit words into a new array. */
  method BytesTo16BitWordsLittleEndian(bytes: array<bv8>) returns (words: array<bv16>)
    requires bytes.Length % 2 == 0
    ensures fresh(words)
    ensures words[..] == BytesToWords16LE(bytes[..])
  {
    var count := bytes.Length;
    words := new bv16[count / 2];
    var byteIndex, wordIndex := 0, 0;
    while byteIndex < count
      invariant 0 <= byteIndex <= count && byteIndex - 0 == 2 * wordIndex
      invariant words[..wordIndex] == BytesToWords16LE(bytes[0..byteIndex])
    {
      words[wordIndex] := Word16LE(bytes[byteIndex], bytes[byteIndex + 1]);
      BytesToWords16LEStepArray(bytes, 0, byteIndex);
      assert words[..wordIndex + 1] == words[..wordIndex] + [words[wordIndex]];
      byteIndex, wordIndex := byteIndex + 2, wordIndex + 1;
    }
    assert words[..] == words[..wordIndex] && bytes[..] == bytes[0..count];
  }

  /** One iteration of the write loops: the 4 bytes of x stored from index `at`. */
  method Store32BE(bytes: array<bv8>, at: int, x: bv32)
    requires 0 <= at && at + 4 <= bytes.Length
    modifies bytes
    ensures bytes[..at] == old(bytes[..at]) && bytes[at..at + 4] == Bytes32BE(x)
  {
    bytes[at] := ((x >> 24) & 0xff) as bv8;
    bytes[at + 1] := ((x >> 16) & 0xff) as bv8;
    bytes[at + 2] := ((x >> 8) & 0xff) as bv8;
    bytes[at + 3] := (x & 0xff) as bv8;
  }

  /** Fills all of `bytes` with the leading words of `words`, 4 bytes per word. */
  method WriteWordsIntoBytesBigEndian(words: array<bv32>, bytes: array<bv8>)
    requires bytes.Length % 4 == 0 && bytes.Length / 4 <= words.Length
    modifies bytes
    ensures bytes[..] == WordsToBytes32BE(words[..bytes.Length / 4])
  {
    var byteCount := bytes.Length;
    var byteIndex, wordIndex := 0, 0;
    while byteIndex < byteCount
      invariant 0 <= byteIndex <= byteCount && byteIndex == 4 * wordIndex
      invariant bytes[..byteIndex] == WordsToBytes32BE(words[..wordIndex])
    {
      ghost var done := bytes[..byteIndex];
      ghost var ws := words[..];
      assert ws[..wordIndex] == words[..wordIndex] && ws[..wordIndex + 1] == words[..wordIndex + 1];
      Store32BE(bytes, byteIndex, words[wordIndex]);
      assert bytes[..byteIndex + 4] == bytes[..byteIndex] + bytes[byteIndex..byteIndex + 4];
      assert bytes[..byteIndex + 4] == done + Bytes32BE(ws[wordIndex]);
      WordsToBytes32BEStep(ws, wordIndex, done);
      byteIndex, wordIndex := byteIndex + 4, wordIndex + 1;
    }
    assert bytes[..] == bytes[..byteCount];
  }

  /** Reads all of `bytes` as 32-bit words into a new array. */
  method BytesToWordsBigEndian(bytes: array<bv8>) returns (words: array<bv32>)
    requires bytes.Length % 4 == 0
    ensures fresh(words)
    ensures words[..] == BytesToWords32BE(bytes[..])
  {
    var count := bytes.Length;
    words := new bv32[count / 4];
    var byteIndex, wordIndex := 0, 0;
    while byteIndex < count
      invariant 0 <= byteIndex <= count && byteIndex - 0 == 4 * wordIndex
      invariant words[..wordIndex] == BytesToWords32BE(bytes[0..byteIndex])
    {
      words[wordIndex] := Word32BE(bytes[byteIndex], bytes[byteIndex + 1], bytes[byteIndex + 2], bytes[byteIndex + 3]);
      BytesToWords32BEStepArray(bytes, 0, byteIndex);
      assert words[..wordIndex + 1] == words[..wordIndex] + [words[wordIndex]];
      byteIndex, wordIndex := byteIndex + 4, wordIndex + 1;
    }
    assert words[..] == words[..wordIndex] && bytes[..] == bytes[0..count];
  }

  /** Reads the `count` bytes from `start` as 32-bit words into a new array. */
  method BytesToWordsBigEndianRange(bytes: array<bv8>, start: int, count: int) returns (words: array<bv32>)
    requires 0 <= start && 0 <= count && count % 4 == 0 && start + count <= bytes.Length
    ensures fresh(words)
    ensures words[..] == BytesToWords32BE(bytes[start..start + count])
  {
    words := new bv32[count / 4];
    var byteIndex, wordIndex := start, 0;
    while byteIndex < start + count
      invariant start <= byteIndex <= start + count && byteIndex - start == 4 * wordIndex
      invariant words[..wordIndex] == BytesToWords32BE(bytes[start..byteIndex])
    {
      words[wordIndex] := Word32BE(bytes[byteIndex], bytes[byteIndex + 1], bytes[byteIndex + 2], bytes[byteIndex + 3]);
      BytesToWords32BEStepArray(bytes, start, byteIndex);
      assert words[..wordIndex + 1] == words[..wordIndex] + [words[wordIndex]];
      byteIndex, wordIndex := byteIndex + 4, wordIndex + 1;
    }
    assert words[..] == words[..wordIndex];
  }

  /** One iteration of the write loops: the 4 bytes of x stored from index `at`. */
  method Store32LE(bytes: array<bv8>, at: int, x: bv32)
    requires 0 <= at && at + 4 <= bytes.Length
    modifies bytes
    ensures bytes[..at] == old(bytes[..at]) && bytes[at..at + 4] == Bytes32LE(x)
  {
    bytes[at] := (x & 0xff) as bv8;
    bytes[at + 1] := ((x >> 8) & 0xff) as bv8;
    bytes[at + 2] := ((x >> 16) & 0xff) as bv8;
    bytes[at + 3] := ((x >> 24) & 0xff) as bv8;
  }

  /** Fills all of `bytes` with the leading words of `words`, 4 bytes per word. */
  method WriteWordsIntoBytesLittleEndian(words: array<bv32>, bytes: array<bv8>)
    requires bytes.Length % 4 == 0 && bytes.Length / 4 <= words.Length
    modifies bytes
    ensures bytes[..] == WordsToBytes32LE(words[..bytes.Length / 4])
  {
    var byteCount := bytes.Length;
    var byteIndex, wordIndex := 0, 0;
    while byteIndex < byteCount
      invariant 0 <= byteIndex <= byteCount && byteIndex == 4 * wordIndex
      invariant bytes[..byteIndex] == WordsToBytes32LE(words[..wordIndex])
    {
      ghost var done := bytes[..byteIndex];
      ghost var ws := words[..];
      assert ws[..wordIndex] == words[..wordIndex] && ws[..wordIndex + 1] == words[..wordIndex + 1];
      Store32LE(bytes, byteIndex, words[wordIndex]);
      assert bytes[..byteIndex + 4] == bytes[..byteIndex] + bytes[byteIndex..byteIndex + 4];
      assert bytes[..byteIndex + 4] == done + Bytes32LE(ws[wordIndex]);
      WordsToBytes32LEStep(ws, wordIndex, done);
      byteIndex, wordIndex := byteIndex + 4, wordIndex + 1;
    }
    assert bytes[..] == bytes[..byteCount];
  }

  /** Reads the `count` bytes from `start` as 32-bit words into a new array. */
  method BytesToWordsLittleEndianRange(bytes: array<bv8>, start: int, count: int) returns (words: array<bv32>)
    requires 0 <= start && 0 <= count && count % 4 == 0 && start + count <= bytes.Length
    ensures fresh(words)
    ensures words[..] == BytesToWords32LE(bytes[start..start + count])
  {
    words := new bv32[count / 4];
    var byteIndex, wordIndex := start, 0;
    while byteIndex < start + count
      invariant start <= byteIndex <= start + count && byteIndex - start == 4 * wordIndex
      invariant words[..wordIndex] == BytesToWords32LE(bytes[start..byteIndex])
    {
      words[wordIndex] := Word32LE(bytes[byteIndex], bytes[byteIndex + 1], bytes[byteIndex + 2], bytes[byteIndex + 3]);
      BytesToWords32LEStepArray(bytes, start, byteIndex);
      assert words[..wordIndex + 1] == words[..wordIndex] + [words[wordIndex]];
      byteIndex, wordIndex := byteIndex + 4, wordIndex + 1;
    }
    assert words[..] == words[..wordIndex];
  }

  /** Reads all of `bytes`: the range version from 0 over the whole length. */
  method BytesToWordsLittleEndian(bytes: array<bv8>) returns (words: array<bv32>)
    requires bytes.Length % 4 == 0
    ensures fresh(words)
    ensures words[..] == BytesToWords32LE(bytes[..])
  {
    words := BytesToWordsLittleEndianRange(bytes, 0, bytes.Length);
    assert bytes[..] == bytes[0..bytes.Length];
  }

  /** One iteration of the write loops: the 8 bytes of x stored from index `at`. */
  method Store64BE(bytes: array<bv8>, at: int, x: bv64)
    requires 0 <= at && at + 8 <= bytes.Length
    modifies bytes
    ensures bytes[..at] == old(bytes[..at]) && bytes[at..at + 8] == Bytes64BE(x)
  {
    bytes[at] := ((x >> 56) & 0xff) as bv8;
    bytes[at + 1] := ((x >> 48) & 0xff) as bv8;
    bytes[at + 2] := ((x >> 40) & 0xff) as bv8;
    bytes[at + 3] := ((x >> 32) & 0xff) as bv8;
    bytes[at + 4] := ((x >> 24) & 0xff) as bv8;
    bytes[at + 5] := ((x >> 16) & 0xff) as bv8;
    bytes[at + 6] := ((x >> 8) & 0xff) as bv8;
    bytes[at + 7] := (x & 0xff) as bv8;
  }

  /** Fills all of `bytes` with the leading words of `words`, 8 bytes per word. */
  method Write64BitWordsIntoBytesBigEndian(words: array<bv64>, bytes: array<bv8>)
    requires bytes.Length % 8 == 0 && bytes.Length / 8 <= words.Length
    modifies bytes
    ensures bytes[..] == WordsToBytes64BE(words[..bytes.Length / 8])
  {
    var byteCount := bytes.Length;
    var byteIndex, wordIndex := 0, 0;
    while byteIndex < byteCount
      invariant 0 <= byteIndex <= byteCount && byteIndex == 8 * wordIndex
      invariant bytes[..byteIndex] == WordsToBytes64BE(words[..wordIndex])
    {
      ghost var done := bytes[..byteIndex];
      ghost var ws := words[..];
      assert ws[..wordIndex] == words[..wordIndex] && ws[..wordIndex + 1] == words[..wordIndex + 1];
      Store64BE(bytes, byteIndex, words[wordIndex]);
      assert bytes[..byteIndex + 8] == bytes[..byteIndex] + bytes[byteIndex..byteIndex + 8];
      assert bytes[..byteIndex + 8] == done + Bytes64BE(ws[wordIndex]);
      WordsToBytes64BEStep(ws, wordIndex, done);
      byteIndex, wordIndex := byteIndex + 8, wordIndex + 1;
    }
    assert bytes[..] == bytes[..byteCount];
  }

  /** Reads the `count` bytes from `start` as 64-bit words into a new array. */
  method BytesTo64BitWordsBigEndianRange(bytes: array<bv8>, start: int, count: int) returns (words: array<bv64>)
    requires 0 <= start && 0 <= count && count % 8 == 0 && start + count <= bytes.Length
    ensures fresh(words)
    ensures words[..] == BytesToWords64BE(bytes[start..start + count])
  {
    words := new bv64[count / 8];
    var byteIndex, wordIndex := start, 0;
    while byteIndex < start + count
      invariant start <= byteIndex <= start + count && byteIndex - start == 8 * wordIndex
      invariant words[..wordIndex] == BytesToWords64BE(bytes[start..byteIndex])
    {
      words[wordIndex] := Word64BE(bytes[byteIndex], bytes[byteIndex + 1], bytes[byteIndex + 2], bytes[byteIndex + 3], bytes[byteIndex + 4], bytes[byteIndex + 5], bytes[byteIndex + 6], bytes[byteIndex + 7]);
      BytesToWords64BEStepArray(bytes, start, byteIndex);
      assert words[..wordIndex + 1] == words[..wordIndex] + [words[wordIndex]];
      byteIndex, wordIndex := byteIndex + 8, wordIndex + 1;
    }
    assert words[..] == words[..wordIndex];
  }

  /** Reads all of `bytes`: the range version from 0 over the whole length. */
  method BytesTo64BitWordsBigEndian(bytes: array<bv8>) returns (words: array<bv64>)
    requires bytes.Length % 8 == 0
    ensures fresh(words)
    ensures words[..] == BytesToWords64BE(bytes[..])
  {
    words := BytesTo64BitWordsBigEndianRange(bytes, 0, bytes.Length);
    assert bytes[..] == bytes[0..bytes.Length];
  }

  /** One iteration of the write loops: the 8 bytes of x stored from index `at`. */
  method Store64LE(bytes: array<bv8>, at: int, x: bv64)
    requires 0 <= at && at + 8 <= bytes.Length
    modifies bytes
    ensures bytes[..at] == old(bytes[..at]) && bytes[at..at + 8] == Bytes64LE(x)
  {
    bytes[at] := (x & 0xff) as bv8;
    bytes[at + 1] := ((x >> 8) & 0xff) as bv8;
    bytes[at + 2] := ((x >> 16) & 0xff) as bv8;
    bytes[at + 3] := ((x >> 24) & 0xff) as bv8;
    bytes[at + 4] := ((x >> 32) & 0xff) as bv8;
    bytes[at + 5] := ((x >> 40) & 0xff) as bv8;
    bytes[at + 6] := ((x >> 48) & 0xff) as bv8;
    bytes[at + 7] := ((x >> 56) & 0xff) as bv8;
  }

  /** Fills all of `bytes` with the leading words of `words`, 8 bytes per word. */
  method Write64BitWordsIntoBytesLittleEndian(words: array<bv64>, bytes: array<bv8>)
    requires bytes.Length % 8 == 0 && bytes.Length / 8 <= words.Length
    modifies bytes
    ensures bytes[..] == WordsToBytes64LE(words[..bytes.Length / 8])
  {
    var byteCount := bytes.Length;
    var byteIndex, wordIndex := 0, 0;
    while byteIndex < byteCount
      invariant 0 <= byteIndex <= byteCount && byteIndex == 8 * wordIndex
      invariant bytes[..byteIndex] == WordsToBytes64LE(words[..wordIndex])
    {
      ghost var done := bytes[..byteIndex];
      ghost var ws := words[..];
      assert ws[..wordIndex] == words[..wordIndex] && ws[..wordIndex + 1] == words[..wordIndex + 1];
      Store64LE(bytes, byteIndex, words[wordIndex]);
      assert bytes[..byteIndex + 8] == bytes[..byteIndex] + bytes[byteIndex..byteIndex + 8];
      assert bytes[..byteIndex + 8] == done + Bytes64LE(ws[wordIndex]);
      WordsToBytes64LEStep(ws, wordIndex, done);
      byteIndex, wordIndex := byteIndex + 8, wordIndex + 1;
    }
    assert bytes[..] == bytes[..byteCount];
  }

  /** Reads the `count` bytes from `start` as 64-bit words into a new array. */
  method BytesTo64BitWordsLittleEndianRange(bytes: array<bv8>, start: int, count: int) returns (words: array<bv64>)
    requires 0 <= start && 0 <= count && count % 8 == 0 && start + count <= bytes.Length
    ensures fresh(words)
    ensures words[..] == BytesToWords64LE(bytes[start..start + count])
  {
    words := new bv64[count / 8];
    var byteIndex, wordIndex := start, 0;
    while byteIndex < start + count
      invariant start <= byteIndex <= start + count && byteIndex - start == 8 * wordIndex
      invariant words[..wordIndex] == BytesToWords64LE(bytes[start..byteIndex])
    {
      words[wordIndex] := Word64LE(bytes[byteIndex], bytes[byteIndex + 1], bytes[byteIndex + 2], bytes[byteIndex + 3], bytes[byteIndex + 4], bytes[byteIndex + 5], bytes[byteIndex + 6], bytes[byteIndex + 7]);
      BytesToWords64LEStepArray(bytes, start, byteIndex);
      assert words[..wordIndex + 1] == words[..wordIndex] + [words[wordIndex]];
      byteIndex, wordIndex := byteIndex + 8, wordIndex + 1;
    }
    assert words[..] == words[..wordIndex];
  }

  /** Reads all of `bytes`: the range version from 0 over the whole length. */
  method BytesTo64BitWordsLittleEndian(bytes: array<bv8>) returns (words: array<bv64>)
    requires bytes.Length % 8 == 0
    ensures fresh(words)
    ensures words[..] == BytesToWords64LE(bytes[..])
  {
    words := BytesTo64BitWordsLittleEndianRange(bytes, 0, bytes.Length);
    assert bytes[..] == bytes[0..bytes.Length];
  }
}
