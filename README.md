# Serpent managed transform, modelled in Dafny

This project models the cipher core of the KeePass Serpent plugin (namespace `DotNetCrypt`). It has three parts.

- **The Serpent block cipher** (`Crypto/SerpentManagedTransform.cs`). This covers:
  - the padded key and the 132 prekeys;
  - the 33 subkeys, computed through the bitsliced S-box table;
  - 32 rounds of S-box and linear transformation on four 32-bit words, and their inverse;
  - the little-endian byte/word codec around a 16-byte block;
  - `Reset`, which zeroes the key.
- **The mode and padding engine** (`Crypto/ManagedTransformBase.cs`). This covers:
  - the constructor's register, IV and CTR counter set-up;
  - `TransformBlock`, including holding the last block back while decrypting with a padding that is stripped;
  - `TransformFinalBlock`;
  - the loops of `EncryptData` and `DecryptData` for ECB, CBC, CFB (shift size 1..16), OFB and CTR, with CTS throwing;
  - the padding modes None, PKCS7, Zeros, ANSI X9.23 and ISO 10126;
  - the CTR counter increment, and `Reset`.
- **The byte/word codec** (`Crypto/Utils.cs`). This covers big- and little-endian conversion of 16-, 32- and 64-bit words, and `IsStreamMode`.

Each file has its own form:
- **Pure functions** model the code that only computes: the S-boxes, the linear transformation, the key schedule, the rounds, the padding and the mode steps.
- **Methods over arrays** model the code that works by mutation. Each method is proved against those functions.
- **Classes** model the two transform objects. `SerpentTransform.SerpentManagedTransform` keeps the key and the expanded key. `Engine.ManagedTransformBase` keeps the feedback register, the IV, the counter, the first-block flag and the held-back block, as `array?<bv8>` fields, and holds the Serpent object.

Exceptions become the `Failure` case of a `Result`, naming the .NET exception the source would throw. `null` becomes `Null`.

Modules and files:
- `outcomes.dfy`: `Result`, `Nullable` and `Exception`.
- `cipher_enums.dfy`: the enumerations.
- `buffers.dfy`: `Array.Copy`, `CopyTo` and `Array.Clear` on arrays.
- `utils.dfy`: the codec.
- `serpent_sboxes.dfy`: the S-box table and the S-box formulas.
- `serpent_linear.dfy`: the linear transformation.
- `serpent_keys.dfy`: the key schedule.
- `serpent_network.dfy`: the rounds and the block functions.
- `serpent_transform.dfy`: the Serpent object and its methods.
- `padding.dfy`: the padding.
- `modes.dfy`: the mode steps, the counter and the loop, with their inverse lemmas.
- `transform_spec.dfy`: the specification functions of `EncryptData`, `DecryptData`, `TransformBlock` and `TransformFinalBlock`, and the final round trip.
- `engine.dfy`: the transform object and its methods.

The main results:
- Every S-box formula computes its row of the S-box table, and that row is a permutation of 0..15. The inverse formula undoes it.
- The inverse linear transformation undoes the linear transformation, and each decryption round undoes its encryption round.
- Serpent decryption undoes encryption on words and on 16-byte blocks.
- The imperative key schedule equals its specification.
- A decryption step undoes an encryption step in every mode, and the decryption loop undoes the encryption loop.
- Depadding undoes padding, and conversely a depadded output was padded.
- A final decryption of what a final encryption returned gives the input back. For the program as written this holds at input offset 0 and whenever no padding is appended. For the corrected copy of the padded input described under "## Findings", which the model computes, it holds from every input offset.
- A decryption that strips padding gives the same bytes and the same state whether it is streamed as one TransformBlock and a TransformFinalBlock, or done as one TransformFinalBlock over the joined input, when the first call ends on a whole step.
- The counter increment adds one to the big-endian value, and throws exactly on overflow.
- Every codec direction round-trips.

## Model

| member | source | states |
|---|---|---|
| Utils.WordsToBytes16BERoundTrip | Crypto/Utils.cs:62-70 | big-endian bytes of whole 16-bit words, converted to words and back, are unchanged |
| Utils.BytesToWords16BERoundTrip | Crypto/Utils.cs:110-119 | converting 16-bit words to big-endian bytes and back gives the words back |
| Utils.WordsToBytes16LERoundTrip | Crypto/Utils.cs:72-80 | the same round trip for little-endian bytes of 16-bit words |
| Utils.BytesToWords16LERoundTrip | Crypto/Utils.cs:121-130 | the same round trip for little-endian 16-bit words |
| Utils.WordsToBytes32BERoundTrip | Crypto/Utils.cs:82-92 | big-endian bytes of whole 32-bit words, converted to words and back, are unchanged |
| Utils.BytesToWords32BERoundTrip | Crypto/Utils.cs:132-153 | converting 32-bit words to big-endian bytes and back gives the words back |
| Utils.WordsToBytes32LERoundTrip | Crypto/Utils.cs:173-183 | the same round trip for little-endian bytes of 32-bit words |
| Utils.BytesToWords32LERoundTrip | Crypto/Utils.cs:201-215 | the same round trip for little-endian 32-bit words |
| Utils.WordsToBytes64BERoundTrip | Crypto/Utils.cs:94-108 | big-endian bytes of whole 64-bit words, converted to words and back, are unchanged |
| Utils.BytesToWords64BERoundTrip | Crypto/Utils.cs:155-171 | converting 64-bit words to big-endian bytes and back gives the words back |
| Utils.WordsToBytes64LERoundTrip | Crypto/Utils.cs:185-199 | the same round trip for little-endian bytes of 64-bit words |
| Utils.BytesToWords64LERoundTrip | Crypto/Utils.cs:217-233 | the same round trip for little-endian 64-bit words |
| Utils.Word32LEOfBytes | Crypto/Utils.cs:206-215 | a word's four little-endian bytes, reassembled as the reader does, give the word back |
| Utils.Write16BitWordsIntoBytesBigEndian | Crypto/Utils.cs:62-70 | the byte array becomes the big-endian bytes of the first bytes.Length/2 words |
| Utils.Write16BitWordsIntoBytesLittleEndian | Crypto/Utils.cs:72-80 | the byte array becomes the little-endian bytes of the first bytes.Length/2 words |
| Utils.WriteWordsIntoBytesBigEndian | Crypto/Utils.cs:82-92 | the byte array becomes the big-endian bytes of the first bytes.Length/4 words |
| Utils.Write64BitWordsIntoBytesBigEndian | Crypto/Utils.cs:94-108 | the byte array becomes the big-endian bytes of the first bytes.Length/8 words |
| Utils.BytesTo16BitWordsBigEndian | Crypto/Utils.cs:110-119 | a new array holding the big-endian 16-bit words of the bytes |
| Utils.BytesTo16BitWordsLittleEndian | Crypto/Utils.cs:121-130 | a new array holding the little-endian 16-bit words of the bytes |
| Utils.BytesToWordsBigEndian | Crypto/Utils.cs:132-142 | a new array holding the big-endian 32-bit words of the bytes |
| Utils.BytesToWordsBigEndianRange | Crypto/Utils.cs:144-153 | a new array holding the big-endian 32-bit words of bytes[start..start+count] |
| Utils.BytesTo64BitWordsBigEndian | Crypto/Utils.cs:155-158 | a new array holding the big-endian 64-bit words of the bytes |
| Utils.BytesTo64BitWordsBigEndianRange | Crypto/Utils.cs:160-171 | a new array holding the big-endian 64-bit words of bytes[start..start+count] |
| Utils.WriteWordsIntoBytesLittleEndian | Crypto/Utils.cs:173-183 | the byte array becomes the little-endian bytes of the first bytes.Length/4 words |
| Utils.Write64BitWordsIntoBytesLittleEndian | Crypto/Utils.cs:185-199 | the byte array becomes the little-endian bytes of the first bytes.Length/8 words |
| Utils.BytesToWordsLittleEndian | Crypto/Utils.cs:201-204 | a new array holding the little-endian 32-bit words of all the bytes |
| Utils.BytesToWordsLittleEndianRange | Crypto/Utils.cs:206-215 | a new array holding the little-endian 32-bit words of bytes[start..start+count] |
| Utils.BytesTo64BitWordsLittleEndian | Crypto/Utils.cs:217-220 | a new array holding the little-endian 64-bit words of the bytes |
| Utils.BytesTo64BitWordsLittleEndianRange | Crypto/Utils.cs:222-233 | a new array holding the little-endian 64-bit words of bytes[start..start+count] |
| SerpentSBoxes.SBoxTablePeriodic | Crypto/SerpentManagedTransform.cs:40-73 | the 32-row S-box table repeats its first eight rows: row k is row k mod 8 |
| SerpentSBoxes.SBoxRowIsPermutation | Crypto/SerpentManagedTransform.cs:40-73 | every row of the S-box table is a permutation of 0..15 |
| SerpentSBoxes.S0MatchesTable | Crypto/SerpentManagedTransform.cs:174-191 | the bitsliced S-box of round 0, at every bit position, maps the nibble of the four input bits to its entry in S-box table row 0 |
| SerpentSBoxes.S1MatchesTable | Crypto/SerpentManagedTransform.cs:208-225 | the bitsliced S-box formula of round 1 computes row 1 of the table on every nibble |
| SerpentSBoxes.S2MatchesTable | Crypto/SerpentManagedTransform.cs:242-257 | the bitsliced S-box formula of round 2 computes row 2 of the table on every nibble |
| SerpentSBoxes.S3MatchesTable | Crypto/SerpentManagedTransform.cs:274-291 | the bitsliced S-box formula of round 3 computes row 3 of the table on every nibble |
| SerpentSBoxes.S4MatchesTable | Crypto/SerpentManagedTransform.cs:308-326 | the bitsliced S-box formula of round 4 computes row 4 of the table on every nibble |
| SerpentSBoxes.S5MatchesTable | Crypto/SerpentManagedTransform.cs:343-359 | the bitsliced S-box formula of round 5 computes row 5 of the table on every nibble |
| SerpentSBoxes.S6MatchesTable | Crypto/SerpentManagedTransform.cs:376-394 | the bitsliced S-box formula of round 6 computes row 6 of the table on every nibble |
| SerpentSBoxes.S7MatchesTable | Crypto/SerpentManagedTransform.cs:411-429 | the bitsliced S-box formula of round 7 computes row 7 of the table on every nibble |
| SerpentSBoxes.InvS0Inverse | Crypto/SerpentManagedTransform.cs:2317-2335 | the inverse S-box formula of decryption round 0 undoes S-box 0 on every four-word state |
| SerpentSBoxes.InvS1Inverse | Crypto/SerpentManagedTransform.cs:1470-1487 | the inverse S-box formula 1 of decryption undoes S-box 1 |
| SerpentSBoxes.InvS2Inverse | Crypto/SerpentManagedTransform.cs:1436-1453 | the inverse S-box formula 2 of decryption undoes S-box 2 |
| SerpentSBoxes.InvS3Inverse | Crypto/SerpentManagedTransform.cs:1403-1419 | the inverse S-box formula 3 of decryption undoes S-box 3 |
| SerpentSBoxes.InvS4Inverse | Crypto/SerpentManagedTransform.cs:1370-1386 | the inverse S-box formula 4 of decryption undoes S-box 4 |
| SerpentSBoxes.InvS5Inverse | Crypto/SerpentManagedTransform.cs:1337-1353 | the inverse S-box formula 5 of decryption undoes S-box 5 |
| SerpentSBoxes.InvS6Inverse | Crypto/SerpentManagedTransform.cs:1302-1320 | the inverse S-box formula 6 of decryption undoes S-box 6 |
| SerpentSBoxes.InvS7Inverse | Crypto/SerpentManagedTransform.cs:1268-1285 | the inverse S-box formula 7 of decryption undoes S-box 7 |
| SerpentSBoxes.SBoxFormulaMatchesTable | Crypto/SerpentManagedTransform.cs:167-1251 | the S-box formula used by encryption round k computes row k of the 32-row table on every nibble |
| SerpentSBoxes.SBoxFormulaInverse | Crypto/SerpentManagedTransform.cs:1261-2341 | the inverse S-box formula used by decryption round k undoes the S-box formula of round k |
| SerpentLinear.InvLTInverse | Crypto/SerpentManagedTransform.cs:1291-1300 | the inverse linear transformation (rotations right, the same xors, in reverse order) undoes the linear transformation of lines 193-202 |
| SerpentKeys.FullLengthKey | Crypto/SerpentManagedTransform.cs:130-151 | the padded key has eight words, and exists exactly for keys of 16, 24 or at least 32 bytes; other lengths index past the key |
| SerpentKeys.FullLengthKey16 | Crypto/SerpentManagedTransform.cs:130-151 | a 16-byte key pads to its four little-endian words followed by 1, 0, 0, 0 |
| SerpentKeys.FullLengthKey24 | Crypto/SerpentManagedTransform.cs:130-151 | a 24-byte key pads to its six little-endian words followed by 1, 0 |
| SerpentKeys.FullLengthKey32 | Crypto/SerpentManagedTransform.cs:130-151 | a 32-byte key gives its eight little-endian words |
| SerpentKeys.NextPrekey | Crypto/SerpentManagedTransform.cs:90-110 | prekey i is the xor of the words 8, 5, 3 and 1 places back (padded-key words before index 0), PHI and i, rotated left by 11 |
| SerpentKeys.GetBit | Crypto/SerpentManagedTransform.cs:153-157 | GetBit(x, p, offset) is bit p mod 32 of word offset + p/32 |
| SerpentKeys.SubkeyBox | Crypto/SerpentManagedTransform.cs:113 | subkey i uses S-box (35 - i) mod 32, which is row (35 - i) mod 8 |
| SerpentKeys.Subkeys | Crypto/SerpentManagedTransform.cs:111-127 | there are 33 subkeys, and subkey i is the table slice of prekeys 4i..4i+3 |
| SerpentKeys.SubkeyIsSBox | Crypto/SerpentManagedTransform.cs:111-127 | the subkey computed bit by bit through the table equals the bitsliced S-box formula (35 - i) mod 8 applied to the four prekeys |
| SerpentKeys.ExpandKey | Crypto/SerpentManagedTransform.cs:84-128 | the key schedule gives 33 subkeys exactly when the key can be padded, and throws IndexOutOfRange otherwise |
| SerpentNetwork.KeyXorTwice | Crypto/SerpentManagedTransform.cs:169-172 | xoring a subkey in twice restores the state |
| SerpentNetwork.InvRoundInverse | Crypto/SerpentManagedTransform.cs:1261-1300 | each decryption round (subkey 32 xor for round 31, inverse linear transformation otherwise, inverse S-box, subkey xor) undoes the encryption round with the same index |
| SerpentNetwork.DecryptRoundsInverse | Crypto/SerpentManagedTransform.cs:1261-2341 | decryption rounds n-1 down to 0 undo encryption rounds 0 to n-1 |
| SerpentNetwork.DecryptEncrypt | Crypto/SerpentManagedTransform.cs:167-2341 | Serpent decryption undoes Serpent encryption on every four-word block under every expanded key |
| SerpentNetwork.ReadWrittenState | Crypto/SerpentManagedTransform.cs:2350-2355 | reading back the little-endian bytes written from a state gives the state |
| SerpentNetwork.WriteReadBlock | Crypto/SerpentManagedTransform.cs:2350-2355 | writing back the words read from a 16-byte block gives the block |
| SerpentNetwork.DecryptEncryptBlock | Crypto/SerpentManagedTransform.cs:2350-2369 | DecryptBlock undoes EncryptBlock on every 16-byte block |
| SerpentTransform.StorePrekey | Crypto/SerpentManagedTransform.cs:90-91 | one prekey statement extends the prekeys computed so far by the next prekey and leaves the rest of the array alone |
| SerpentTransform.ComputePrekeys | Crypto/SerpentManagedTransform.cs:87-110 | the working key array holds the 132 prekeys of the padded key |
| SerpentTransform.ComputeSubkey | Crypto/SerpentManagedTransform.cs:111-127 | the inner loop over the 32 bit positions builds subkey i of the specification |
| SerpentTransform.ComputeSubkeys | Crypto/SerpentManagedTransform.cs:111-127 | the outer loop builds all 33 subkeys of the prekeys |
| SerpentTransform.EncryptRounds | Crypto/SerpentManagedTransform.cs:167-1251 | the 32 encryption rounds applied in sequence compute Serpent encryption of the state |
| SerpentTransform.DecryptRounds | Crypto/SerpentManagedTransform.cs:1261-2341 | the 32 decryption rounds, last first, compute Serpent decryption of the state |
| SerpentTransform.SerpentManagedTransform.constructor | Crypto/SerpentManagedTransform.cs:77-82 | the object keeps a reference to the key and holds the key schedule of that key |
| SerpentTransform.SerpentManagedTransform.GetFullLengthKey | Crypto/SerpentManagedTransform.cs:130-151 | a new eight-word array holding the padded key |
| SerpentTransform.SerpentManagedTransform.ComputeKeySchedule | Crypto/SerpentManagedTransform.cs:84-128 | the expanded key becomes the 33 subkeys of the key |
| SerpentTransform.SerpentManagedTransform.Encrypt | Crypto/SerpentManagedTransform.cs:167-1251 | words 0..3 become their Serpent encryption under the expanded key, and the rest of the array is unchanged |
| SerpentTransform.SerpentManagedTransform.Decrypt | Crypto/SerpentManagedTransform.cs:1261-2341 | words 0..3 become their Serpent decryption, and the rest of the array is unchanged |
| SerpentTransform.SerpentManagedTransform.EncryptBlock | Crypto/SerpentManagedTransform.cs:2350-2355 | the 16-byte block becomes its little-endian Serpent encryption |
| SerpentTransform.SerpentManagedTransform.DecryptBlock | Crypto/SerpentManagedTransform.cs:2364-2369 | the 16-byte block becomes its little-endian Serpent decryption |
| SerpentTransform.SerpentManagedTransform.Reset | Crypto/SerpentManagedTransform.cs:2374-2393 | the key array is zeroed, and the key and the expanded key are dropped |
| Padding.PaddingSize | Crypto/ManagedTransformBase.cs:329-354 | the padding fails exactly for no padding on a partial block outside stream modes. Otherwise it reaches a block boundary, is 1..16 bytes for the modes that strip, and is zero exactly for no padding and for zero padding on aligned data |
| Padding.PaddingBytesLast | Crypto/ManagedTransformBase.cs:356-378 | in PKCS7, ANSI X9.23 and ISO 10126 the padding bytes end with the padding size |
| Padding.DepadPadding | Crypto/ManagedTransformBase.cs:663-711 | the depadding check on data followed by its padding passes and gives back exactly the data |
| Padding.DepadPrefix | Crypto/ManagedTransformBase.cs:663-711 | the depadding check looks only at the last block: bytes in front of at least a block pass through unchanged, and the check fails exactly when it fails without them |
| Padding.DepadSound | Crypto/ManagedTransformBase.cs:663-711 | an output that passes the depadding check is the depadded data followed by 1..16 bytes ending in their count. For PKCS7 and ANSI X9.23 those bytes are exactly the padding |
| CipherModes.StepSize | Crypto/ManagedTransformBase.cs:397-401 | a loop pass handles 1..16 bytes: in CFB the register shift size (1 when it is 0), which must lie in 0..16; 16 in the other modes, whatever their shift size |
| CipherModes.RippleValue | Crypto/ManagedTransformBase.cs:486-503 | the carry ripple succeeds exactly when the big-endian counter value plus one fits in the counter, and then adds one. Otherwise it throws CryptographicException |
| CipherModes.IncrementValue | Crypto/ManagedTransformBase.cs:486-503 | incrementing adds one to the big-endian counter value. An empty counter throws IndexOutOfRange and an overflowing one throws CryptographicException |
| CipherModes.RippleOverflow | Crypto/ManagedTransformBase.cs:493-501 | a counter of all 0xFF bytes overflows |
| CipherModes.CounterBlockInjective | Crypto/ManagedTransformBase.cs:446-462 | under a fixed IV and combination rule, distinct counters give distinct CTR input blocks |
| CipherModes.XorBytesTwice | Crypto/ManagedTransformBase.cs:415-419 | xoring the same bytes in twice restores the block |
| CipherModes.BlockModeStepInverse | Crypto/ManagedTransformBase.cs:591-599 | an ECB or CBC decryption step undoes the encryption step of lines 412-419 and leaves the same register |
| CipherModes.CfbStepInverse | Crypto/ManagedTransformBase.cs:600-607 | the CFB decryption step gives back the plaintext bytes of the CFB encryption step of lines 420-427 |
| CipherModes.OfbStepInverse | Crypto/ManagedTransformBase.cs:608-614 | the OFB decryption step gives back the plaintext bytes of the OFB encryption step of lines 428-434 |
| CipherModes.CtrStepInverse | Crypto/ManagedTransformBase.cs:617-645 | the CTR decryption step gives back the plaintext bytes of the CTR encryption step of lines 437-465 |
| CipherModes.StepInverse | Crypto/ManagedTransformBase.cs:410-466 | in every mode, a decryption step on what an encryption step wrote gives back the plaintext bytes it covered (whole blocks in ECB and CBC) |
| CipherModes.StreamStepForwardOnly | Crypto/Utils.cs:57-60 | in the modes IsStreamMode names (CFB, OFB, CTR) a step of either direction uses the cipher only forwards: two permutations that encrypt alike give the same step |
| CipherModes.LoopExact | Crypto/ManagedTransformBase.cs:403-474 | a loop into an output with exactly the remaining bytes of room writes exactly that many bytes |
| CipherModes.LoopRoundTrip | Crypto/ManagedTransformBase.cs:403-474 | the DecryptData loop over the bytes the EncryptData loop wrote gives back the plaintext bytes (whole blocks in ECB and CBC) |
| CipherModes.LoopSplit | Crypto/ManagedTransformBase.cs:403-474 | a loop over first + rest bytes, where first is whole steps, is the loop over the first bytes followed by the loop over the rest from the registers it ended in, or the first part's exception |
| CipherModes.LoopSame | Crypto/ManagedTransformBase.cs:403-474 | the loop depends only on the input bytes from where it reads to the end and on the room left in the output: two buffers that agree there give the same result |
| CipherModes.LoopWholeSame | Crypto/ManagedTransformBase.cs:403-474 | a loop of whole steps that stays at least a block before the end of both buffers depends only on the bytes it covers |
| CipherModes.LoopRegisters | Crypto/ManagedTransformBase.cs:582-653 | when every pass is a whole step, the decryption loop ends with the registers the encryption loop ended with |
| TransformSpec.InitialBlock | Crypto/ManagedTransformBase.cs:96-101 | the register and the IV are a block that starts with the caller's IV |
| TransformSpec.InitialCounterBlock | Crypto/ManagedTransformBase.cs:102-120 | under every combination rule, the first CTR block made from the counter the constructor set up is the IV block itself |
| TransformSpec.SerpentInvertible | Crypto/SerpentManagedTransform.cs:2350-2369 | Serpent under an expanded key is an invertible block permutation |
| TransformSpec.PaddedInput | Crypto/ManagedTransformBase.cs:379-383 | with padding the encryption buffer is count plus the padding long, and from the offset where the loop starts there is room for the count input bytes |
| TransformSpec.PaddedInputRange | Crypto/ManagedTransformBase.cs:379-408 | where the loop starts reading, the buffer holds the caller's count bytes from the input offset followed by the padding bytes (corrected copy, see Findings) |
| TransformSpec.PaddedInputAsWritten | Crypto/ManagedTransformBase.cs:379-382 | the buffer as the source builds it: count plus the padding long, starting with the first count bytes of the input whatever the input offset |
| TransformSpec.PaddedCopyFromZero | Crypto/ManagedTransformBase.cs:379-408 | for [7, 0] at offset 1, count 1 and PKCS7, the block the source's loop reads is fifteen padding bytes and a zero, which fails the padding check; the corrected buffer gives the input byte and its padding, which depads to [0] |
| TransformSpec.PaddedCopyPastEnd | Crypto/ManagedTransformBase.cs:379-408 | for a 21-byte input at offset 20, count 1 and PKCS7, the source's 16-byte buffer is read from index 20 and the copy throws ArgumentOutOfRange; the corrected buffer gives the input byte and fifteen padding bytes |
| TransformSpec.PaddedCopyAgreesAtZero | Crypto/ManagedTransformBase.cs:379-382 | at input offset 0 the corrected buffer, read from the same offset, is the buffer the source builds, so there the model's final encryption is the source's |
| TransformSpec.EncryptData | Crypto/ManagedTransformBase.cs:315-484 | on success EncryptData returns inputCount and leaves well-formed registers |
| TransformSpec.ResetState | Crypto/ManagedTransformBase.cs:717-740 | Reset drops the key schedule, the registers and the held-back block, and keeps the first-block flag |
| TransformSpec.TransformBlock | Crypto/ManagedTransformBase.cs:185-231 | a successful TransformBlock had valid arguments: an input, a non-negative offset, and a positive whole number of blocks within the input. It keeps the permutation and leaves a valid state. Encryption, and decryption without a padding to strip, return inputCount and keep the held-back block. A decryption that strips padding holds the last input block back; the first such call returns inputCount - 16 and every later call returns inputCount |
| TransformSpec.HeldBackFirstLoop | Crypto/ManagedTransformBase.cs:217-222 | the first held-back TransformBlock runs the decryption loop over all input blocks but the last, and its output starts with what that loop wrote |
| TransformSpec.StreamedDecryption | Crypto/ManagedTransformBase.cs:185-290 | streaming a decryption that strips padding gives what one final decryption gives: a first TransformBlock over c1, then TransformFinalBlock over c2, returns the bytes a single TransformFinalBlock over c1 + c2 returns, and leaves the same state. The first call must end on a whole step |
| TransformSpec.TransformFinalBlock | Crypto/ManagedTransformBase.cs:248-291 | a successful TransformFinalBlock leaves the transform reset |
| TransformSpec.DepadPaddedInput | Crypto/ManagedTransformBase.cs:356-383 | the padding check of data followed by the padding a final encryption appends to it gives the data back, followed by the zeros of zero padding |
| TransformSpec.FinalRoundTrip | Crypto/ManagedTransformBase.cs:248-291 | a decryptor with the same settings, key and registers, given the array a final encryption returned, gives back the input bytes from the input offset (followed by the padding under zero padding). The ciphertext is the input plus its padding long. This holds for every offset with the corrected copy; for the source as written, at offset 0 (by PaddedCopyAgreesAtZero) or when no padding is appended |
| Engine.ReadBlockInto | Crypto/ManagedTransformBase.cs:405-408 | the loop's block is count bytes of the input (what is left near the end) followed by zeros, or an exception for a negative index or length |
| Engine.XorBlock | Crypto/ManagedTransformBase.cs:415-419 | the block becomes its xor with the register |
| Engine.CarryBytes | Crypto/ManagedTransformBase.cs:493-502 | the carry loop agrees with the ripple specification: the trailing 0xFF bytes become zero and the next byte is incremented, or the call throws when the carry runs out |
| Engine.IncrementBytes | Crypto/ManagedTransformBase.cs:486-503 | the counter array becomes its increment, or the exception of the specification |
| Engine.NewRegisters | Crypto/ManagedTransformBase.cs:96-120 | the new register, IV and counter arrays are distinct and hold the constructor's initial registers |
| Engine.PaddingData | Crypto/ManagedTransformBase.cs:356-378 | a new array holding exactly the padding bytes of the mode |
| Engine.PadInput | Crypto/ManagedTransformBase.cs:329-383 | the padding size of a final call, the buffer the encryption loop reads and the offset it reads from, as the corrected specification of the padded buffer states |
| Engine.Depadded | Crypto/ManagedTransformBase.cs:663-711 | the depadding check on the decrypted output agrees with its specification, and the result array holds the depadded bytes |
| Engine.Trimmed | Crypto/ManagedTransformBase.cs:476-481 | when trimming, a new array holding the first count bytes |
| Engine.ManagedTransformBase.constructor | Crypto/ManagedTransformBase.cs:82-123 | the settings come from the algorithm; the registers are the initial registers of the mode, combination rule and IV; the Serpent object holds the key schedule |
| Engine.ManagedTransformBase.EncryptBlock | Crypto/ManagedTransformBase.cs:512-517 | the block becomes its encryption under the key schedule |
| Engine.ManagedTransformBase.DecryptBlock | Crypto/ManagedTransformBase.cs:537-542 | the block becomes its decryption under the key schedule |
| Engine.ManagedTransformBase.EcbStep | Crypto/ManagedTransformBase.cs:412-414 | the block and registers after the ECB step are those of the step specification |
| Engine.ManagedTransformBase.CbcStep | Crypto/ManagedTransformBase.cs:415-419 | the block and registers after the CBC step of either direction are those of the step specification |
| Engine.ManagedTransformBase.CfbStep | Crypto/ManagedTransformBase.cs:420-427 | the block and registers after the CFB step of either direction are those of the step specification |
| Engine.ManagedTransformBase.OfbStep | Crypto/ManagedTransformBase.cs:428-434 | the block and registers after the OFB step are those of the step specification |
| Engine.ManagedTransformBase.IncrementCounter | Crypto/ManagedTransformBase.cs:486-503 | the counter is incremented as a big-endian number, or the call throws as the specification says |
| Engine.ManagedTransformBase.CounterBlockInto | Crypto/ManagedTransformBase.cs:446-462 | the register receives the CTR input block of the IV and the counter under the combination rule |
| Engine.ManagedTransformBase.CtrStep | Crypto/ManagedTransformBase.cs:437-465 | the block and registers after the CTR step are those of the step specification |
| Engine.ManagedTransformBase.StepBlock | Crypto/ManagedTransformBase.cs:410-466 | the mode switch of the loop body agrees with the step specification |
| Engine.ManagedTransformBase.RunLoop | Crypto/ManagedTransformBase.cs:403-474 | the output holds what the loop specification wrote, spliced in at the output offset, and the registers are the specification's |
| Engine.ManagedTransformBase.EncryptData | Crypto/ManagedTransformBase.cs:315-484 | the return value, the output reference, the caller's array and the registers agree with the EncryptData specification |
| Engine.ManagedTransformBase.DecryptData | Crypto/ManagedTransformBase.cs:555-712 | the return value, the output reference, the caller's array and the registers agree with the DecryptData specification |
| Engine.ManagedTransformBase.TransformBlock | Crypto/ManagedTransformBase.cs:185-231 | the return value, the caller's output array and the new state agree with the TransformBlock specification |
| Engine.ManagedTransformBase.HeldBack | Crypto/ManagedTransformBase.cs:213-230 | the held-back path of TransformBlock agrees with its specification |
| Engine.ManagedTransformBase.TransformFinalBlock | Crypto/ManagedTransformBase.cs:248-291 | the returned array and the state after Reset agree with the TransformFinalBlock specification |
| Engine.ManagedTransformBase.FinalDecrypt | Crypto/ManagedTransformBase.cs:277-290 | the final decryption of the held-back block followed by the input agrees with the DecryptData specification |
| Engine.ManagedTransformBase.Reset | Crypto/ManagedTransformBase.cs:717-740 | the key and every buffer are zeroed and dropped, the counter size becomes 0, and the state becomes the reset state |

## Left out

- The random number generator of `Crypto/Utils.cs` (lines 29-55) is not modelled. The ISO 10126 padding bytes it supplies become the `random` parameter of `TransformFinalBlock`.
- `NewEncryptor` (`Crypto/Utils.cs:235-251`) builds a transform by reflection and is left out. The model constructs the transform directly.
- The algorithm classes (`Serpent`, `SerpentManaged`, `SymmetricAlgorithmBase`) are left out. Only their constraints are kept: a 128-bit block, and keys of 128, 192 or 256 bits.
- `Dispose`, `Clear` and finalisation are left out. `Dispose` does nothing observable, because `Dispose(bool)` is empty. `Clear` calls `Reset` and then `Dispose`. Neither is modelled beyond `Reset`.
- The endianness delegates are fixed to little-endian. That is what the Serpent transform passes. The big-endian path is unused by this core.
- Engine.ManagedTransformBase.TransformBlock does not model the input and the output being the same array. It requires them to be distinct, and distinct from the transform's own arrays.
- Engine.ManagedTransformBase.TransformBlock leaves the state after an exception unspecified. A call that throws only promises the exception.
- Utils.WriteWordsIntoBytesLittleEndian requires whole words. The same goes for the other write methods and for every reader (BytesToWordsLittleEndianRange and the rest), which also require the range to lie within the array. On a partial trailing word the source indexes past the array. The model requires lengths that are multiples of the word size.
- CTR with an IV of 16 bytes under Concatenate gets an empty counter. Every later block then reads byte -1 of it and throws IndexOutOfRange. The model returns that exception before incrementing.
- Constant-time behaviour and timing are outside a functional model.
- TransformSpec.PaddedInput computes the corrected copy of the padded buffer: the count bytes from the input offset, read from index 0. The source copies the first count bytes from index 0 and reads from the input offset (see "## Findings"). The two agree at input offset 0 (PaddedCopyAgreesAtZero). Otherwise the source encrypts other bytes, or throws ArgumentOutOfRange when the offset passes the end of the buffer (PaddedCopyPastEnd).
- TransformSpec.EncryptData uses that corrected copy for a final encryption with padding. For an input offset above 0 the source's result differs, as for PaddedInput.
- TransformSpec.TransformFinalBlock uses that corrected copy through EncryptData. For an encryptor with padding and an input offset above 0 the source's result differs, as for PaddedInput.
- TransformSpec.FinalRoundTrip is proved for the corrected copy. For the program as written it holds only at input offset 0 or when no padding is appended, which is where the two copies agree.
- Engine.PadInput builds the corrected buffer and returns 0 as the offset the loop reads from when padding is appended. The source's buffer differs for an input offset above 0, as for PaddedInput.
- Engine.ManagedTransformBase.EncryptData runs the loop over the corrected buffer. It differs from the source for a final encryption with padding and an input offset above 0.
- Engine.ManagedTransformBase.TransformFinalBlock encrypts through that EncryptData. It differs from the source for an encryptor with padding and an input offset above 0.
- Engine.ManagedTransformBase.constructor requires an IV of at most 16 bytes. With a longer IV the source's first copy into the 16-byte register throws ArgumentException (line 100); that exception is not modelled.
- TransformSpec.InitialBlock requires an IV of at most 16 bytes, for the same reason.
- TransformSpec.InitialRegisters requires an IV of at most 16 bytes, for the same reason.
- Engine.ManagedTransformBase.constructor requires a CFB register shift size of 0..16. With any other size the first pass of the loop throws when it copies that many bytes (lines 407-408 and 421); that exception is not modelled. The other modes never read the shift size and take any value.
- CipherModes.StepSize requires the CFB shift size to lie in 0..16, for the same reason.
- TransformSpec.StreamedDecryption requires the bytes the first call decrypts to be a whole number of loop steps. That always holds except in CFB with a shift size that does not divide 16 times the number of blocks before the held-back one; there the first call ends inside a step, and the equivalence is not proved. It covers one TransformBlock before the final call, from a state with no block held back.

## Findings

| source | as written | input that shows it | evidently intended | confidence | as-written member | corrected member |
|---|---|---|---|---|---|---|
| Crypto/ManagedTransformBase.cs:379-382 | a final encryption with padding copies the first inputCount bytes of the input from index 0 into the padded buffer, and the loop then reads that buffer from inputOffset; an inputOffset past the end of that buffer makes the copy throw | TransformFinalBlock of an encryptor with PKCS7 padding on [7, 0] with inputOffset 1 and inputCount 1: the loop encrypts fifteen padding bytes and a zero, and decrypting the result fails the padding check instead of giving [0]; with a 21-byte input, inputOffset 20 and inputCount 1 the copy throws ArgumentOutOfRange | copy the inputCount bytes from inputOffset and read the padded buffer from 0 | high, not executed | TransformSpec.PaddedInputAsWritten, TransformSpec.PaddedCopyFromZero, TransformSpec.PaddedCopyPastEnd | TransformSpec.PaddedInputRange, TransformSpec.FinalRoundTrip |
