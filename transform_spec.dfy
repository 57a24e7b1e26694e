/**
 * What the public operations of Crypto/ManagedTransformBase.cs compute, as functions of the
 * transform's state: EncryptData and DecryptData (lines 315-484 and 555-712) around the mode
 * loop, and TransformBlock and TransformFinalBlock (lines 188-231 and 248-291) around those,
 * with Serpent under its expanded key as the block permutation. The lemmas at the end prove that
 * a final decryption undoes a final encryption.
 */
module TransformSpec {
  import opened Outcomes
  import opened Enums
  import opened Utils
  import opened SerpentSBoxes
  import opened CipherModes
  import opened Padding
  import Buffers
  import Network = SerpentNetwork

  // ---- the block permutation ----

  /** Serpent under an expanded key: EncryptBlock and DecryptBlock on 16-byte blocks. */
  function SerpentPermutation(ks: seq<Quad>): Permutation
    requires Network.IsExpandedKey(ks)
  {
    Permutation(
      b => if |b| == BlockSize then Network.EncryptBlock(ks, b) else b,
      b => if |b| == BlockSize then Network.DecryptBlock(ks, b) else b)
  }

  /** The permutation of the expanded key the Serpent object holds; none once Reset dropped it. */
  function KeyPermutation(expandedKey: Nullable<seq<Quad>>): Nullable<Permutation>
  {
    if expandedKey.NonNull? && Network.IsExpandedKey(expandedKey.value) then NonNull(SerpentPermutation(expandedKey.value))
    else Null
  }

  /**
   * A permutation that computes Serpent's block functions under the expanded key. The equations
   * are keyed to the block functions themselves, so that reasoning about the modes, which only
   * applies the permutation, never unfolds the cipher.
   */
  ghost predicate Computes(p: Permutation, ks: seq<Quad>)
  {
    Network.IsExpandedKey(ks) &&
    (forall b {:trigger Network.EncryptBlock(ks, b)} :: |b| == BlockSize ==> p.encrypt(b) == Network.EncryptBlock(ks, b)) &&
    (forall b {:trigger Network.DecryptBlock(ks, b)} :: |b| == BlockSize ==> p.decrypt(b) == Network.DecryptBlock(ks, b))
  }

  /** The Serpent permutation computes Serpent. */
  lemma SerpentComputes(ks: seq<Quad>)
    requires Network.IsExpandedKey(ks)
    ensures Computes(SerpentPermutation(ks), ks)
  {
  }

  /** Serpent's decryption undoes its encryption on every block. */
  lemma SerpentInvertible(ks: seq<Quad>)
    requires Network.IsExpandedKey(ks)
    ensures Invertible(SerpentPermutation(ks))
  {
    var pi := SerpentPermutation(ks);
    forall b | |b| == BlockSize
      ensures pi.decrypt(pi.encrypt(b)) == b
    {
      Network.DecryptEncryptBlock(ks, b);
    }
  }

  // ---- the constructor ----

  /** The IV the constructor copies into the register and the IV array: the caller's bytes, then zeros. */
  function InitialBlock(rgbIv: Nullable<seq<bv8>>): (b: seq<bv8>)
    requires rgbIv.NonNull? ==> |rgbIv.value| <= BlockSize
    ensures |b| == BlockSize && (rgbIv.NonNull? ==> b[..|rgbIv.value|] == rgbIv.value)
  {
    if rgbIv.Null? then Buffers.Zeros(BlockSize) else rgbIv.value + Buffers.Zeros(BlockSize - |rgbIv.value|)
  }

  /**
   * The registers after construction: the IV in both the feedback register and the IV array; in
   * CTR with an IV, a zero counter after the IV (Concatenate), a zero block (Xor) or a copy of the
   * IV (Add), with the first-block flag set.
   */
  function InitialRegisters(mode: ExtendedCipherMode, nonce: NonceCombinationMode, rgbIv: Nullable<seq<bv8>>): Registers
    requires rgbIv.NonNull? ==> |rgbIv.value| <= BlockSize
  {
    var fb := InitialBlock(rgbIv);
    if rgbIv.NonNull? && mode == CTR then
      var c := match nonce
        case Concatenate => Buffers.Zeros(BlockSize - |rgbIv.value|)
        case Xor => Buffers.Zeros(BlockSize)
        case Add => fb;
      Registers(NonNull(fb), NonNull(fb), NonNull(c), true)
    else Registers(NonNull(fb), NonNull(fb), Null, false)
  }

  /** A newly constructed transform is live under any invertible permutation. */
  lemma InitialLive(p: Permutation, s: Settings, rgbIv: Nullable<seq<bv8>>)
    requires Invertible(p) && (rgbIv.NonNull? ==> |rgbIv.value| <= BlockSize)
    ensures Live(NonNull(p), s, InitialRegisters(s.mode, s.nonce, rgbIv))
  {
  }

  /**
   * Under every combination rule the first CTR block, which uses the counter as the constructor
   * left it, is the IV itself (the caller's bytes followed by zeros).
   */
  lemma InitialCounterBlock(nonce: NonceCombinationMode, rgbIv: seq<bv8>)
    requires |rgbIv| <= BlockSize
    ensures var regs := InitialRegisters(CTR, nonce, NonNull(rgbIv));
            CounterBlock(nonce, regs.iv.value, regs.counter.value) == InitialBlock(NonNull(rgbIv))
  {
    var fb := InitialBlock(NonNull(rgbIv));
    if nonce == Xor {
      var x := XorBytes(fb, Buffers.Zeros(BlockSize));
      forall k | 0 <= k < BlockSize
        ensures x[k] == fb[k]
      {
        var a := fb[k];
        assert a ^ 0 == a;
      }
      assert fb[..0] + x == fb;
    } else if nonce == Concatenate {
      assert fb[..|rgbIv|] + Buffers.Zeros(BlockSize - |rgbIv|) == fb;
    }
  }

  // ---- EncryptData and DecryptData ----

  /** The buffer w written over target from o on; the rest of target is kept. */
  function Splice(target: seq<bv8>, o: int, w: seq<bv8>): (r: seq<bv8>)
    requires w == [] || (0 <= o && o + |w| <= |target|)
    ensures |r| == |target|
  {
    if w == [] then target else target[..o] + w + target[o + |w|..]
  }

  /** Each byte of a splice comes from w inside the written range and from target elsewhere. */
  lemma SpliceAt(target: seq<bv8>, o: int, w: seq<bv8>, k: int)
    requires w == [] || (0 <= o && o + |w| <= |target|)
    requires 0 <= k < |target|
    ensures Splice(target, o, w)[k] == if o <= k < o + |w| then w[k - o] else target[k]
  {
    if w != [] {
      var r := target[..o] + w + target[o + |w|..];
      if k < o {
        assert r[k] == target[..o][k];
      } else if k < o + |w| {
        assert r[k] == w[k - o];
      } else {
        assert r[k] == target[o + |w|..][k - o - |w|];
      }
    }
  }

  /** Splicing w and then x right after it is splicing w + x. */
  lemma SpliceExtend(target: seq<bv8>, o: int, w: seq<bv8>, x: seq<bv8>, out: seq<bv8>)
    requires 0 <= o && o + |w| + |x| <= |target|
    requires out == Splice(target, o, w)[..o + |w|] + x + Splice(target, o, w)[o + |w| + |x|..]
    ensures out == Splice(target, o, w + x)
  {
    var p := Splice(target, o, w);
    forall k | 0 <= k < |target|
      ensures out[k] == Splice(target, o, w + x)[k]
    {
      SpliceAt(target, o, w + x, k);
      if k < o + |w| {
        assert out[k] == p[k];
        SpliceAt(target, o, w, k);
      } else if k < o + |w| + |x| {
        assert out[k] == x[k - o - |w|];
      } else {
        assert out[k] == p[k];
        SpliceAt(target, o, w, k);
      }
    }
  }

  /**
   * What EncryptData or DecryptData leaves behind: target is the array the loop wrote into (the
   * caller's, or one it allocated), buffer is the array the output reference holds at the end,
   * moved says whether that is no longer the caller's array, and count is the return value.
   */
  datatype Written = Written(target: seq<bv8>, buffer: seq<bv8>, moved: bool, regs: Registers, count: int)

  /** Where the encryption loop starts reading its buffer: at 0 in a padded copy, else at the input offset. */
  function PaddedOffset(inputOffset: int, size: int): int
  {
    if size != 0 then 0 else inputOffset
  }

  /**
   * The buffer the encryption loop reads: with padding, a copy of the count input bytes from the
   * input offset followed by the padding, read from 0 on; else the input itself, read from the
   * input offset. Either way the loop finds the input range where it starts to read.
   */
  function PaddedInput(padding: PaddingMode, input: seq<bv8>, inputOffset: int, count: int, size: int,
                       random: seq<bv8>): (r: seq<bv8>)
    requires 0 <= inputOffset && 0 <= count && inputOffset + count <= |input|
    requires 0 <= size <= InputBlockSize && |random| == InputBlockSize
    ensures PaddedOffset(inputOffset, size) + count <= |r|
    ensures size != 0 ==> |r| == count + size
  {
    if size != 0 then input[inputOffset..inputOffset + count] + PaddingBytes(padding, size, random) else input
  }

  /**
   * The loop finds, where it starts to read the padded input, the caller's input range followed by
   * the padding bytes (none without padding).
   */
  lemma PaddedInputRange(padding: PaddingMode, input: seq<bv8>, inputOffset: int, count: int, size: int,
                         random: seq<bv8>)
    requires 0 <= inputOffset && 0 <= count && inputOffset + count <= |input|
    requires 0 <= size <= InputBlockSize && |random| == InputBlockSize
    ensures var r := PaddedInput(padding, input, inputOffset, count, size, random);
            var at := PaddedOffset(inputOffset, size);
            at + count + size <= |r| &&
            r[at..at + count + size] == input[inputOffset..inputOffset + count] +
                                        (if size != 0 then PaddingBytes(padding, size, random) else [])
  {
    var r := PaddedInput(padding, input, inputOffset, count, size, random);
    if size != 0 {
      assert r[0..count + size] == r;
    } else {
      assert input[inputOffset..inputOffset + count] + [] == input[inputOffset..inputOffset + count];
    }
  }

  /**
   * The padded buffer as the source builds it: the copy takes the first count bytes of the input,
   * from index 0 whatever the input offset, while the loop still reads it from the input offset.
   */
  function PaddedInputAsWritten(padding: PaddingMode, input: seq<bv8>, count: int, size: int,
                                random: seq<bv8>): (r: seq<bv8>)
    requires 0 <= count <= |input| && 1 <= size <= InputBlockSize && |random| == InputBlockSize
    ensures |r| == count + size && r[..count] == input[..count]
  {
    input[..count] + PaddingBytes(padding, size, random)
  }

  /**
   * The copy from index 0 loses data: a final PKCS7 encryption of the one byte at offset 1 of
   * [7, 0] reads, from offset 1 of the copy, fifteen padding bytes and then a zero where the input
   * byte and its padding belong, and the padding check of that block fails. The corrected buffer,
   * read from 0, holds the input byte and its padding, which the padding check strips back to [0].
   */
  lemma PaddedCopyFromZero(random: seq<bv8>)
    requires |random| == InputBlockSize
    ensures PaddingSize(PKCS7, ECB, 1) == Success(15)
    ensures ReadBlock(PaddedInputAsWritten(PKCS7, [7, 0], 1, 15, random), 1, BlockSize) ==
              Success(seq(15, _ => 15 as bv8) + [0])
    ensures Depad(PKCS7, seq(15, _ => 15 as bv8) + [0]) == Failure(Cryptographic)
    ensures ReadBlock(PaddedInput(PKCS7, [7, 0], 1, 1, 15, random), PaddedOffset(1, 15), BlockSize) ==
              Success([0] + seq(15, _ => 15 as bv8))
    ensures Depad(PKCS7, [0] + seq(15, _ => 15 as bv8)) == Success([0])
  {
    var pad := seq(15, _ => 15 as bv8);
    assert PaddingBytes(PKCS7, 15, random) == pad;
    var written := PaddedInputAsWritten(PKCS7, [7, 0], 1, 15, random);
    assert written[1..16] == pad;
    assert Buffers.Zeros(1) == [0];
    assert ReadBlock(written, 1, BlockSize) == Success(written[1..16] + Buffers.Zeros(1));
    var corrected := PaddedInput(PKCS7, [7, 0], 1, 1, 15, random);
    assert corrected[0..16] + Buffers.Zeros(0) == [0] + pad;
    DepadPadding(PKCS7, [0], 15, random);
  }

  /**
   * With a larger offset the copy from index 0 throws: for the one byte at offset 20 of a 21-byte
   * input, the 16-byte copy is shorter than the offset the loop reads it from, so the first block
   * has a negative length and Array.Copy throws. The corrected buffer is read from 0 and succeeds.
   */
  lemma PaddedCopyPastEnd(random: seq<bv8>)
    requires |random| == InputBlockSize
    ensures PaddingSize(PKCS7, ECB, 1) == Success(15)
    ensures ReadBlock(PaddedInputAsWritten(PKCS7, Buffers.Zeros(21), 1, 15, random), 20, BlockSize) ==
              Failure(ArgumentOutOfRange)
    ensures ReadBlock(PaddedInput(PKCS7, Buffers.Zeros(21), 20, 1, 15, random), PaddedOffset(20, 15), BlockSize) ==
              Success([0] + seq(15, _ => 15 as bv8))
  {
    var pad := seq(15, _ => 15 as bv8);
    assert PaddingBytes(PKCS7, 15, random) == pad;
    var corrected := PaddedInput(PKCS7, Buffers.Zeros(21), 20, 1, 15, random);
    assert corrected[0..16] + Buffers.Zeros(0) == [0] + pad;
  }

  /**
   * At input offset 0 the copy from index 0 is the corrected copy, read from the same offset: there
   * the source's final encryption is the one the model computes.
   */
  lemma PaddedCopyAgreesAtZero(padding: PaddingMode, input: seq<bv8>, count: int, size: int, random: seq<bv8>)
    requires 0 <= count <= |input| && 1 <= size <= InputBlockSize && |random| == InputBlockSize
    ensures PaddedOffset(0, size) == 0
    ensures PaddedInput(padding, input, 0, count, size, random) == PaddedInputAsWritten(padding, input, count, size, random)
  {
    assert input[0..count] == input[..count];
  }

  /**
   * The part EncryptData and DecryptData share: the output is allocated when the caller passes
   * none (else it must have room for total bytes from the output offset), the loop writes total
   * bytes into it, and, where trimmable, a stream mode cuts an output longer than count down to a
   * fresh copy of its first count bytes.
   */
  function Deliver(dir: TransformDirection, pi: Nullable<Permutation>, s: Settings, regs: Registers, buf: seq<bv8>,
                   inputOffset: int, output: Nullable<seq<bv8>>, outputOffset: int, total: int, count: int,
                   trimmable: bool): (r: Result<Written>)
    requires WellFormed(pi, s, regs) && 0 <= count <= total
    ensures r.Success? ==> WellFormed(pi, s, r.value.regs) && r.value.count == count
  {
    if output.NonNull? && |output.value| - outputOffset < total then Failure(Cryptographic)
    else
      var target := if output.Null? then Buffers.Zeros(total) else output.value;
      var o := if output.Null? then 0 else outputOffset;
      match Loop(dir, pi, s, regs, buf, inputOffset, o, |target|, total, StepSize(s))
      case Failure(e) => Failure(e)
      case Success(ch) =>
        LoopWithin(dir, pi, s, regs, buf, inputOffset, o, |target|, total, StepSize(s));
        var written := Splice(target, o, ch.written);
        var trim := trimmable && IsStreamMode(s.mode) && |written| > count;
        Success(Written(written, if trim then written[..count] else written, output.Null? || trim, ch.regs, count))
  }

  /**
   * EncryptData: the padding of a final call is appended and the loop encrypts count plus
   * padding bytes; only without padding is a stream mode's output cut to count bytes. The input
   * too short for the range, a partial block without padding in a block mode, and an output
   * without room all throw.
   */
  function EncryptData(pi: Nullable<Permutation>, s: Settings, regs: Registers, padding: PaddingMode,
                       input: seq<bv8>, inputOffset: int, inputCount: int, output: Nullable<seq<bv8>>,
                       outputOffset: int, final: bool, random: seq<bv8>): (r: Result<Written>)
    requires WellFormed(pi, s, regs) && 0 <= inputOffset && 0 <= inputCount && |random| == InputBlockSize
    ensures r.Success? ==> WellFormed(pi, s, r.value.regs) && r.value.count == inputCount
  {
    if |input| < inputOffset + inputCount then Failure(Cryptographic)
    else match (if final then PaddingSize(padding, s.mode, inputCount) else Success(0))
    case Failure(e) => Failure(e)
    case Success(size) =>
      Deliver(Encrypt, pi, s, regs, PaddedInput(padding, input, inputOffset, inputCount, size, random),
              PaddedOffset(inputOffset, size), output, outputOffset, inputCount + size, inputCount, padding == NoPadding)
  }

  /**
   * DecryptData: the loop decrypts count bytes. A final call, always into its own output, then
   * checks and strips the padding, and returns the bytes that remain.
   */
  function DecryptData(pi: Nullable<Permutation>, s: Settings, regs: Registers, padding: PaddingMode,
                       input: seq<bv8>, inputOffset: int, inputCount: int, output: Nullable<seq<bv8>>,
                       outputOffset: int, final: bool): (r: Result<Written>)
    requires WellFormed(pi, s, regs) && 0 <= inputOffset && 0 <= inputCount && (final ==> output.Null?)
    ensures r.Success? ==> WellFormed(pi, s, r.value.regs)
    ensures r.Success? && !final ==> r.value.count == inputCount
  {
    if |input| < inputOffset + inputCount then Failure(Cryptographic)
    else match Deliver(Decrypt, pi, s, regs, input, inputOffset, output, outputOffset, inputCount, inputCount, true)
    case Failure(e) => Failure(e)
    case Success(w) =>
      if !final then Success(w)
      else match Depad(padding, w.buffer)
        case Failure(e) => Failure(e)
        case Success(plain) => Success(Written(w.target, plain, true, w.regs, |plain|))
  }

  // ---- TransformBlock and TransformFinalBlock ----

  /** What the transform is constructed with. */
  datatype Config = Config(dir: TransformDirection, s: Settings, padding: PaddingMode)

  /** The transform's state: the permutation, the registers, and the held-back last block of a decryption. */
  datatype TransformState = TransformState(pi: Nullable<Permutation>, regs: Registers, depad: Nullable<seq<bv8>>)

  ghost predicate StateValid(cfg: Config, st: TransformState)
  {
    WellFormed(st.pi, cfg.s, st.regs) && (st.depad.NonNull? ==> |st.depad.value| == InputBlockSize)
  }

  /** Reset: the key schedule, the registers and the held-back block are dropped; the first-block flag stays. */
  function ResetState(st: TransformState): (r: TransformState)
    ensures Cleared(r.pi, r.regs) && r.depad.Null? && r.regs.initial == st.regs.initial
  {
    TransformState(Null, Registers(Null, Null, Null, st.regs.initial), Null)
  }

  /** A positive whole number of blocks is at least one block. */
  lemma WholeBlocksAtLeastOne(n: int)
    ensures 0 < n && n % InputBlockSize == 0 ==> InputBlockSize <= n
  {
  }

  /** TransformBlock's result: the count it returns, the caller's output array afterwards, and the new state. */
  datatype Transformed = Transformed(count: int, output: seq<bv8>, state: TransformState)

  /**
   * TransformBlock: the arguments are checked (references, offset, a positive whole number of
   * blocks within the input); encryption, and decryption without a padding to strip, go through
   * directly. Decryption with PKCS7, ANSI X9.23 or ISO 10126 padding holds the last block back in
   * the depad buffer: the first call decrypts the blocks before it, every later call decrypts the
   * held block at the output offset and then the new blocks but the last after it.
   */
  function TransformBlock(cfg: Config, st: TransformState, input: Nullable<seq<bv8>>, inputOffset: int, inputCount: int,
                          output: Nullable<seq<bv8>>, outputOffset: int): (r: Result<Transformed>)
    requires StateValid(cfg, st)
    ensures r.Success? ==> StateValid(cfg, r.value.state) && r.value.state.pi == st.pi
    ensures r.Success? ==> input.NonNull? && 0 <= inputOffset && InputBlockSize <= inputCount &&
                           inputCount % InputBlockSize == 0 && inputOffset + inputCount <= |input.value|
    ensures r.Success? && (cfg.dir == Encrypt || !Strips(cfg.padding)) ==>
              r.value.count == inputCount && r.value.state.depad == st.depad
    ensures r.Success? && cfg.dir == Decrypt && Strips(cfg.padding) ==>
              r.value.count == (if st.depad.Null? then inputCount - InputBlockSize else inputCount) &&
              r.value.state.depad == NonNull(input.value[inputOffset + inputCount - InputBlockSize..inputOffset + inputCount])
  {
    WholeBlocksAtLeastOne(inputCount);
    if input.Null? || output.Null? then Failure(ArgumentNull)
    else if inputOffset < 0 then Failure(ArgumentOutOfRange)
    else if inputCount <= 0 || inputCount % InputBlockSize != 0 || inputCount > |input.value| then Failure(Argument)
    else if |input.value| - inputCount < inputOffset then Failure(Argument)
    else if cfg.dir == Encrypt then
      match EncryptData(st.pi, cfg.s, st.regs, cfg.padding, input.value, inputOffset, inputCount, output, outputOffset,
                        false, Buffers.Zeros(InputBlockSize))
      case Failure(e) => Failure(e)
      case Success(w) => Success(Transformed(w.count, w.target, st.(regs := w.regs)))
    else if !Strips(cfg.padding) then
      match DecryptData(st.pi, cfg.s, st.regs, cfg.padding, input.value, inputOffset, inputCount, output, outputOffset, false)
      case Failure(e) => Failure(e)
      case Success(w) => Success(Transformed(w.count, w.target, st.(regs := w.regs)))
    else
      var num := inputCount - InputBlockSize;
      var held := input.value[inputOffset + num..inputOffset + inputCount];
      if st.depad.Null? then
        match DecryptData(st.pi, cfg.s, st.regs, cfg.padding, input.value, inputOffset, num, output, outputOffset, false)
        case Failure(e) => Failure(e)
        case Success(w) => Success(Transformed(w.count, w.target, TransformState(st.pi, w.regs, NonNull(held))))
      else
        match DecryptData(st.pi, cfg.s, st.regs, cfg.padding, st.depad.value, 0, InputBlockSize, output, outputOffset, false)
        case Failure(e) => Failure(e)
        case Success(w1) =>
          match DecryptData(st.pi, cfg.s, w1.regs, cfg.padding, input.value, inputOffset, num, NonNull(w1.buffer),
                            outputOffset + InputBlockSize, false)
          case Failure(e) => Failure(e)
          case Success(w2) =>
            Success(Transformed(InputBlockSize + w2.count, if w1.moved then w1.target else w2.target,
                                TransformState(st.pi, w2.regs, NonNull(held))))
  }

  /** The first held-back call of TransformBlock is one decryption of the blocks before the last. */
  lemma HeldFirstCall(cfg: Config, st: TransformState, input: seq<bv8>, inputOffset: int, inputCount: int,
                      output: seq<bv8>, outputOffset: int)
    requires StateValid(cfg, st) && cfg.dir == Decrypt && Strips(cfg.padding) && st.depad.Null?
    requires 0 <= inputOffset && 0 < inputCount && inputCount % InputBlockSize == 0 && inputOffset + inputCount <= |input|
    ensures TransformBlock(cfg, st, NonNull(input), inputOffset, inputCount, NonNull(output), outputOffset) ==
              match DecryptData(st.pi, cfg.s, st.regs, cfg.padding, input, inputOffset, inputCount - InputBlockSize,
                                NonNull(output), outputOffset, false)
              case Failure(e) => Failure(e)
              case Success(w) =>
                Success(Transformed(w.count, w.target, TransformState(st.pi, w.regs,
                  NonNull(input[inputOffset + inputCount - InputBlockSize..inputOffset + inputCount]))))
  {
  }

  /** A later held-back call decrypts the held block at the output offset and then the new blocks but the last. */
  lemma HeldNextCall(cfg: Config, st: TransformState, input: seq<bv8>, inputOffset: int, inputCount: int,
                     output: seq<bv8>, outputOffset: int)
    requires StateValid(cfg, st) && cfg.dir == Decrypt && Strips(cfg.padding) && st.depad.NonNull?
    requires 0 <= inputOffset && 0 < inputCount && inputCount % InputBlockSize == 0 && inputOffset + inputCount <= |input|
    ensures TransformBlock(cfg, st, NonNull(input), inputOffset, inputCount, NonNull(output), outputOffset) ==
              match DecryptData(st.pi, cfg.s, st.regs, cfg.padding, st.depad.value, 0, InputBlockSize, NonNull(output),
                                outputOffset, false)
              case Failure(e) => Failure(e)
              case Success(w1) =>
                match DecryptData(st.pi, cfg.s, w1.regs, cfg.padding, input, inputOffset, inputCount - InputBlockSize,
                                  NonNull(w1.buffer), outputOffset + InputBlockSize, false)
                case Failure(e) => Failure(e)
                case Success(w2) =>
                  Success(Transformed(InputBlockSize + w2.count, if w1.moved then w1.target else w2.target,
                    TransformState(st.pi, w2.regs, NonNull(input[inputOffset + inputCount - InputBlockSize..inputOffset + inputCount]))))
  {
  }

  /** TransformFinalBlock's result: the array it returns, and the state after Reset. */
  datatype Finished = Finished(output: seq<bv8>, state: TransformState)

  /**
   * TransformFinalBlock: the arguments are checked (reference, offset, a count within the input);
   * encryption pads and encrypts into a fresh output; decryption, which in a block mode needs
   * whole blocks, decrypts the held-back block and the input together into a fresh output and
   * strips the padding. Both then Reset the transform. The generator's bytes for ISO 10126
   * padding are the parameter random.
   */
  function TransformFinalBlock(cfg: Config, st: TransformState, input: Nullable<seq<bv8>>, inputOffset: int, inputCount: int,
                               random: seq<bv8>): (r: Result<Finished>)
    requires StateValid(cfg, st) && |random| == InputBlockSize
    ensures r.Success? ==> r.value.state.pi.Null? && Cleared(r.value.state.pi, r.value.state.regs) && r.value.state.depad.Null?
  {
    if input.Null? then Failure(ArgumentNull)
    else if inputOffset < 0 then Failure(ArgumentOutOfRange)
    else if inputCount < 0 || inputCount > |input.value| then Failure(Argument)
    else if |input.value| - inputCount < inputOffset then Failure(Argument)
    else match FinalOutput(cfg, st, input.value, inputOffset, inputCount, random)
      case Failure(e) => Failure(e)
      case Success(w) => Success(Finished(w.buffer, ResetState(st.(regs := w.regs))))
  }

  /**
   * The output of TransformFinalBlock once its arguments are checked: the padded encryption of
   * the input, or the decryption of the held-back block (if any) followed by the input, which
   * a block mode wants in whole blocks.
   */
  function FinalOutput(cfg: Config, st: TransformState, input: seq<bv8>, inputOffset: int, inputCount: int,
                       random: seq<bv8>): (r: Result<Written>)
    requires StateValid(cfg, st) && 0 <= inputOffset && 0 <= inputCount && inputOffset + inputCount <= |input|
    requires |random| == InputBlockSize
    ensures r.Success? ==> WellFormed(st.pi, cfg.s, r.value.regs)
  {
    if cfg.dir == Encrypt then
      EncryptData(st.pi, cfg.s, st.regs, cfg.padding, input, inputOffset, inputCount, Null, 0, true, random)
    else if !IsStreamMode(cfg.s.mode) && inputCount % InputBlockSize != 0 then Failure(Cryptographic)
    else if st.depad.Null? then
      DecryptData(st.pi, cfg.s, st.regs, cfg.padding, input, inputOffset, inputCount, Null, 0, true)
    else
      var data := st.depad.value + input[inputOffset..inputOffset + inputCount];
      DecryptData(st.pi, cfg.s, st.regs, cfg.padding, data, 0, |data|, Null, 0, true)
  }

  // ---- a final decryption undoes a final encryption ----

  /** A multiple of a block is covered in whole steps of a block. */
  lemma {:induction false} WholeBlocks(m: int)
    requires 0 <= m && m % BlockSize == 0
    ensures WholeSteps(m, BlockSize)
    decreases m
  {
    if m > 0 {
      WholeBlocks(m - BlockSize);
    }
  }

  /** Into no output, Deliver allocates total bytes, which the loop fills exactly. */
  lemma DeliverFresh(dir: TransformDirection, pi: Nullable<Permutation>, s: Settings, regs: Registers, buf: seq<bv8>,
                     at: int, total: int, count: int, trimmable: bool)
    requires WellFormed(pi, s, regs) && 0 <= count <= total
    requires Loop(dir, pi, s, regs, buf, at, 0, total, total, StepSize(s)).Success?
    ensures var ch := Loop(dir, pi, s, regs, buf, at, 0, total, total, StepSize(s)).value;
            |ch.written| == total &&
            Deliver(dir, pi, s, regs, buf, at, Null, 0, total, count, trimmable) ==
              Success(Written(ch.written, if trimmable && IsStreamMode(s.mode) && total > count then ch.written[..count]
                                          else ch.written, true, ch.regs, count))
  {
    var ch := Loop(dir, pi, s, regs, buf, at, 0, total, total, StepSize(s)).value;
    LoopExact(dir, pi, s, regs, buf, at, 0, total, total, StepSize(s));
    assert Splice(Buffers.Zeros(total), 0, ch.written) == ch.written;
  }

  /**
   * A successful final encryption is the loop over the padded input, from the offset where the
   * input range starts in it, into a fresh output it fills exactly.
   */
  lemma FinalEncryptLoop(s: Settings, padding: PaddingMode, st: TransformState, input: seq<bv8>, inputOffset: int,
                         inputCount: int, random: seq<bv8>) returns (size: nat, c: seq<bv8>)
    requires StateValid(Config(Encrypt, s, padding), st) && |random| == InputBlockSize
    requires TransformFinalBlock(Config(Encrypt, s, padding), st, NonNull(input), inputOffset, inputCount, random).Success?
    ensures 0 <= inputOffset && 0 <= inputCount && inputOffset + inputCount <= |input|
    ensures PaddingSize(padding, s.mode, inputCount) == Success(size)
    ensures Loop(Encrypt, st.pi, s, st.regs, PaddedInput(padding, input, inputOffset, inputCount, size, random),
                 PaddedOffset(inputOffset, size), 0, inputCount + size, inputCount + size, StepSize(s)).Success?
    ensures Loop(Encrypt, st.pi, s, st.regs, PaddedInput(padding, input, inputOffset, inputCount, size, random),
                 PaddedOffset(inputOffset, size), 0, inputCount + size, inputCount + size, StepSize(s)).value.written == c
    ensures |c| == inputCount + size
    ensures TransformFinalBlock(Config(Encrypt, s, padding), st, NonNull(input), inputOffset, inputCount, random).value.output == c
  {
    size := PaddingSize(padding, s.mode, inputCount).value;
    var buf := PaddedInput(padding, input, inputOffset, inputCount, size, random);
    var total := inputCount + size;
    DeliverFresh(Encrypt, st.pi, s, st.regs, buf, PaddedOffset(inputOffset, size), total, inputCount, padding == NoPadding);
    c := Loop(Encrypt, st.pi, s, st.regs, buf, PaddedOffset(inputOffset, size), 0, total, total, StepSize(s)).value.written;
  }

  /** A final decryption of c with nothing held back is the padding check of the loop's output over c. */
  lemma FinalDecryptLoop(s: Settings, padding: PaddingMode, st: TransformState, c: seq<bv8>, d: seq<bv8>, random: seq<bv8>)
    requires StateValid(Config(Decrypt, s, padding), st) && st.depad.Null? && |random| == InputBlockSize
    requires !IsStreamMode(s.mode) ==> |c| % InputBlockSize == 0
    requires Loop(Decrypt, st.pi, s, st.regs, c, 0, 0, |c|, |c|, StepSize(s)).Success?
    requires Loop(Decrypt, st.pi, s, st.regs, c, 0, 0, |c|, |c|, StepSize(s)).value.written == d && |d| == |c|
    ensures TransformFinalBlock(Config(Decrypt, s, padding), st, NonNull(c), 0, |c|, random) ==
      match Depad(padding, d)
      case Failure(e) => Failure(e)
      case Success(plain) =>
        Success(Finished(plain, ResetState(st.(regs := Loop(Decrypt, st.pi, s, st.regs, c, 0, 0, |c|, |c|, StepSize(s)).value.regs))))
  {
    DeliverFresh(Decrypt, st.pi, s, st.regs, c, 0, |c|, |c|, true);
  }

  /**
   * The final padding check of data followed by the padding a final encryption appends to it
   * gives the data back, followed by the zeros of zero padding.
   */
  lemma DepadPaddedInput(padding: PaddingMode, mode: ExtendedCipherMode, data: seq<bv8>, size: nat, random: seq<bv8>)
    requires PaddingSize(padding, mode, |data|) == Success(size) && |random| == InputBlockSize
    ensures Depad(padding, data + (if size != 0 then PaddingBytes(padding, size, random) else [])) ==
              Success(data + (if padding == Zeros then Buffers.Zeros(size) else []))
  {
    if size != 0 {
      if Strips(padding) {
        DepadPadding(padding, data, size, random);
        assert data + [] == data;
      }
    } else {
      assert data + [] == data + Buffers.Zeros(0);
    }
  }

  /**
   * A final decryption undoes a final encryption: a decryptor with the encryptor's settings, key
   * and registers and no block held back, given the whole array TransformFinalBlock returned,
   * returns the input bytes from the input offset, followed by the padding when it is zero padding
   * (which cannot be told from data). The ciphertext is the input plus its padding long.
   */
  lemma FinalRoundTrip(s: Settings, padding: PaddingMode, st: TransformState, input: seq<bv8>, inputOffset: int,
                       inputCount: int, random: seq<bv8>)
    requires StateValid(Config(Encrypt, s, padding), st) && st.depad.Null? && |random| == InputBlockSize
    requires TransformFinalBlock(Config(Encrypt, s, padding), st, NonNull(input), inputOffset, inputCount, random).Success?
    requires 0 <= inputCount
    ensures PaddingSize(padding, s.mode, inputCount).Success?
    ensures var c := TransformFinalBlock(Config(Encrypt, s, padding), st, NonNull(input), inputOffset, inputCount, random).value.output;
            var size := PaddingSize(padding, s.mode, inputCount).value;
            var d := TransformFinalBlock(Config(Decrypt, s, padding), st, NonNull(c), 0, |c|, random);
            |c| == inputCount + size && d.Success? &&
            d.value.output == input[inputOffset..inputOffset + inputCount] + (if padding == Zeros then Buffers.Zeros(size) else [])
  {
    var size, c := FinalEncryptLoop(s, padding, st, input, inputOffset, inputCount, random);
    FinalDecryptPadded(s, padding, st, input, inputOffset, inputCount, size, c, random);
  }

  /** The final decryption of what the encryption loop made of the padded input gives the input back. */
  lemma FinalDecryptPadded(s: Settings, padding: PaddingMode, st: TransformState, input: seq<bv8>, inputOffset: int,
                           inputCount: int, size: nat, c: seq<bv8>, random: seq<bv8>)
    requires StateValid(Config(Decrypt, s, padding), st) && st.depad.Null? && |random| == InputBlockSize
    requires 0 <= inputOffset && 0 <= inputCount && inputOffset + inputCount <= |input|
    requires PaddingSize(padding, s.mode, inputCount) == Success(size)
    requires Loop(Encrypt, st.pi, s, st.regs, PaddedInput(padding, input, inputOffset, inputCount, size, random),
                  PaddedOffset(inputOffset, size), 0, inputCount + size, inputCount + size, StepSize(s)).Success?
    requires Loop(Encrypt, st.pi, s, st.regs, PaddedInput(padding, input, inputOffset, inputCount, size, random),
                  PaddedOffset(inputOffset, size), 0, inputCount + size, inputCount + size, StepSize(s)).value.written == c
    requires |c| == inputCount + size
    ensures TransformFinalBlock(Config(Decrypt, s, padding), st, NonNull(c), 0, |c|, random).Success?
    ensures TransformFinalBlock(Config(Decrypt, s, padding), st, NonNull(c), 0, |c|, random).value.output ==
              input[inputOffset..inputOffset + inputCount] + (if padding == Zeros then Buffers.Zeros(size) else [])
  {
    var buf := PaddedInput(padding, input, inputOffset, inputCount, size, random);
    var data := input[inputOffset..inputOffset + inputCount];
    assert |data| == inputCount;
    PaddedInputRange(padding, input, inputOffset, inputCount, size, random);
    FinalDecryptWritten(s, padding, st, buf, PaddedOffset(inputOffset, size), data, size, c, random);
  }

  /**
   * A final decryption of what the encryption loop wrote of buf from at on, where buf holds data
   * followed by its padding, gives the data back (and the zeros of zero padding).
   */
  lemma FinalDecryptWritten(s: Settings, padding: PaddingMode, st: TransformState, buf: seq<bv8>, at: int,
                            data: seq<bv8>, size: nat, c: seq<bv8>, random: seq<bv8>)
    requires StateValid(Config(Decrypt, s, padding), st) && st.depad.Null? && |random| == InputBlockSize
    requires PaddingSize(padding, s.mode, |data|) == Success(size)
    requires 0 <= at && at + |data| + size <= |buf| && |c| == |data| + size
    requires buf[at..at + |data| + size] == data + (if size != 0 then PaddingBytes(padding, size, random) else [])
    requires Loop(Encrypt, st.pi, s, st.regs, buf, at, 0, |data| + size, |data| + size, StepSize(s)).Success?
    requires Loop(Encrypt, st.pi, s, st.regs, buf, at, 0, |data| + size, |data| + size, StepSize(s)).value.written == c
    ensures TransformFinalBlock(Config(Decrypt, s, padding), st, NonNull(c), 0, |c|, random).Success?
    ensures TransformFinalBlock(Config(Decrypt, s, padding), st, NonNull(c), 0, |c|, random).value.output ==
              data + (if padding == Zeros then Buffers.Zeros(size) else [])
  {
    PaddedWhole(padding, s.mode, |data|, size);
    var d := DecryptWritten(s, st.pi, st.regs, buf, at, |data| + size, c);
    DepadPaddedInput(padding, s.mode, data, size, random);
    DecryptedDepads(s, padding, st, c, d, random, data + (if padding == Zeros then Buffers.Zeros(size) else []));
  }

  /** A final decryption whose loop output d passes the padding check returns what the check leaves. */
  lemma DecryptedDepads(s: Settings, padding: PaddingMode, st: TransformState, c: seq<bv8>, d: seq<bv8>,
                        random: seq<bv8>, plain: seq<bv8>)
    requires StateValid(Config(Decrypt, s, padding), st) && st.depad.Null? && |random| == InputBlockSize
    requires !IsStreamMode(s.mode) ==> |c| % InputBlockSize == 0
    requires Loop(Decrypt, st.pi, s, st.regs, c, 0, 0, |c|, |c|, StepSize(s)).Success?
    requires Loop(Decrypt, st.pi, s, st.regs, c, 0, 0, |c|, |c|, StepSize(s)).value.written == d && |d| == |c|
    requires Depad(padding, d) == Success(plain)
    ensures TransformFinalBlock(Config(Decrypt, s, padding), st, NonNull(c), 0, |c|, random).Success?
    ensures TransformFinalBlock(Config(Decrypt, s, padding), st, NonNull(c), 0, |c|, random).value.output == plain
  {
    FinalDecryptLoop(s, padding, st, c, d, random);
  }

  /** A successful padding size leaves whole blocks in a block mode. */
  lemma PaddedWhole(padding: PaddingMode, mode: ExtendedCipherMode, count: nat, size: nat)
    requires PaddingSize(padding, mode, count) == Success(size)
    ensures !IsStreamMode(mode) ==> (count + size) % InputBlockSize == 0
  {
  }

  /**
   * The decryption loop over all of c, what the encryption loop wrote of buf from at on, gives
   * those bytes of buf back (a block mode needs whole blocks).
   */
  lemma DecryptWritten(s: Settings, pi: Nullable<Permutation>, regs: Registers, buf: seq<bv8>, at: int, total: int,
                       c: seq<bv8>) returns (d: seq<bv8>)
    requires WellFormed(pi, s, regs) && 0 <= at && at + total <= |buf| && |c| == total
    requires !IsStreamMode(s.mode) ==> total % InputBlockSize == 0
    requires Loop(Encrypt, pi, s, regs, buf, at, 0, total, total, StepSize(s)).Success?
    requires Loop(Encrypt, pi, s, regs, buf, at, 0, total, total, StepSize(s)).value.written == c
    ensures Loop(Decrypt, pi, s, regs, c, 0, 0, total, total, StepSize(s)).Success?
    ensures Loop(Decrypt, pi, s, regs, c, 0, 0, total, total, StepSize(s)).value.written == d
    ensures d == buf[at..at + total] && |d| == total
  {
    if !IsStreamMode(s.mode) {
      WholeBlocks(total);
    }
    LoopRoundTrip(pi, s, regs, buf, at, c, 0, 0, total, total, StepSize(s));
    d := Loop(Decrypt, pi, s, regs, c, 0, 0, total, total, StepSize(s)).value.written;
  }

  // ---- a held-back decryption in two calls is one final decryption ----

  /**
   * The first TransformBlock of a decryptor that strips padding, over c1 into out at 0: the loop
   * decrypts all of c1 but its last block, which is held back, and the caller's output starts with
   * what the loop wrote.
   */
  lemma HeldBackFirstLoop(s: Settings, padding: PaddingMode, st: TransformState, c1: seq<bv8>, out: seq<bv8>)
    returns (w1: seq<bv8>)
    requires StateValid(Config(Decrypt, s, padding), st) && st.depad.Null? && Strips(padding)
    requires TransformBlock(Config(Decrypt, s, padding), st, NonNull(c1), 0, |c1|, NonNull(out), 0).Success?
    requires WholeSteps(|c1| - InputBlockSize, StepSize(s))
    ensures InputBlockSize <= |c1| && |c1| % InputBlockSize == 0
    ensures var n := |c1| - InputBlockSize;
            var t := TransformBlock(Config(Decrypt, s, padding), st, NonNull(c1), 0, |c1|, NonNull(out), 0).value;
            Loop(Decrypt, st.pi, s, st.regs, c1, 0, 0, n, n, StepSize(s)).Success? &&
            Loop(Decrypt, st.pi, s, st.regs, c1, 0, 0, n, n, StepSize(s)).value.written == w1 && |w1| == n &&
            n <= |t.output| && t.output[..n] == w1 &&
            t.state.regs == Loop(Decrypt, st.pi, s, st.regs, c1, 0, 0, n, n, StepSize(s)).value.regs &&
            t.state.pi == st.pi && t.state.depad == NonNull(c1[n..])
  {
    var n := |c1| - InputBlockSize;
    var count := StepSize(s);
    var w := DecryptData(st.pi, s, st.regs, padding, c1, 0, n, NonNull(out), 0, false).value;
    var ch := Loop(Decrypt, st.pi, s, st.regs, c1, 0, 0, |out|, n, count).value;
    LoopWholeSame(Decrypt, st.pi, s, st.regs, c1, 0, 0, |out|, c1, 0, 0, n, n, count);
    LoopExact(Decrypt, st.pi, s, st.regs, c1, 0, 0, n, n, count);
    w1 := ch.written;
    var written := Splice(out, 0, w1);
    if w1 != [] {
      assert written[..n] == w1;
    }
    assert c1[n..] == c1[0 + n..0 + |c1|];
  }

  /**
   * The final call after a held-back block h: the loop decrypts h followed by the input, and the
   * padding check of what it wrote gives the output.
   */
  lemma HeldBackFinalLoop(s: Settings, padding: PaddingMode, st: TransformState, h: seq<bv8>, c2: seq<bv8>,
                          random: seq<bv8>)
    requires StateValid(Config(Decrypt, s, padding), st) && st.depad == NonNull(h) && |random| == InputBlockSize
    requires TransformFinalBlock(Config(Decrypt, s, padding), st, NonNull(c2), 0, |c2|, random).Success?
    ensures !IsStreamMode(s.mode) ==> |c2| % InputBlockSize == 0
    ensures var d := h + c2;
            var f := TransformFinalBlock(Config(Decrypt, s, padding), st, NonNull(c2), 0, |c2|, random).value;
            Loop(Decrypt, st.pi, s, st.regs, d, 0, 0, |d|, |d|, StepSize(s)).Success? &&
            |Loop(Decrypt, st.pi, s, st.regs, d, 0, 0, |d|, |d|, StepSize(s)).value.written| == |d| &&
            Depad(padding, Loop(Decrypt, st.pi, s, st.regs, d, 0, 0, |d|, |d|, StepSize(s)).value.written) == Success(f.output) &&
            f.state == ResetState(st.(regs := Loop(Decrypt, st.pi, s, st.regs, d, 0, 0, |d|, |d|, StepSize(s)).value.regs))
  {
    var d := h + c2;
    assert c2[0..0 + |c2|] == c2;
    DeliverFresh(Decrypt, st.pi, s, st.regs, d, 0, |d|, |d|, true);
  }

  /**
   * The loop over c in one call, where c is c1 but its last block followed by d and the loop over
   * the first part ends on a whole step, is that loop followed by the loop over d.
   */
  lemma OneShotLoop(s: Settings, pi: Nullable<Permutation>, regs: Registers, c1: seq<bv8>, c: seq<bv8>, n: int,
                    d: seq<bv8>, ch1: Chunked, ch2: Chunked)
    requires WellFormed(pi, s, regs) && 0 <= n == |c1| - InputBlockSize && WholeSteps(n, StepSize(s))
    requires |c| == n + |d| && InputBlockSize <= |d| && c[0..n] == c1[0..n] && c[n..] == d
    requires Loop(Decrypt, pi, s, regs, c1, 0, 0, n, n, StepSize(s)) == Success(ch1)
    requires Loop(Decrypt, pi, s, ch1.regs, d, 0, 0, |d|, |d|, StepSize(s)) == Success(ch2)
    ensures Loop(Decrypt, pi, s, regs, c, 0, 0, |c|, |c|, StepSize(s)) == Success(Chunked(ch1.written + ch2.written, ch2.regs))
  {
    var count := StepSize(s);
    LoopOverPrefix(s, pi, regs, c1, c, n);
    assert Loop(Decrypt, pi, s, ch1.regs, c, n, n, |c|, |d|, count) == Success(ch2) by {
      LoopSame(Decrypt, pi, s, ch1.regs, c, n, n, |c|, d, 0, 0, |d|, |d|, count);
    }
    LoopCut(s, pi, regs, c, n, |d|, ch1, ch2);
  }

  /** The first n bytes of c, a whole number of steps followed by at least a block, decrypt as those of c1 do. */
  lemma LoopOverPrefix(s: Settings, pi: Nullable<Permutation>, regs: Registers, c1: seq<bv8>, c: seq<bv8>, n: int)
    requires WellFormed(pi, s, regs) && 0 <= n && WholeSteps(n, StepSize(s))
    requires n + InputBlockSize <= |c1| && n + InputBlockSize <= |c| && c1[0..n] == c[0..n]
    ensures Loop(Decrypt, pi, s, regs, c, 0, 0, |c|, n, StepSize(s)) == Loop(Decrypt, pi, s, regs, c1, 0, 0, n, n, StepSize(s))
  {
    LoopWholeSame(Decrypt, pi, s, regs, c1, 0, 0, n, c, 0, 0, |c|, n, StepSize(s));
  }

  /** The loop over all of c, cut after a whole number of steps at n, is the two loops one after the other. */
  lemma LoopCut(s: Settings, pi: Nullable<Permutation>, regs: Registers, c: seq<bv8>, n: int, m: int,
                ch1: Chunked, ch2: Chunked)
    requires WellFormed(pi, s, regs) && WholeSteps(n, StepSize(s)) && 0 <= n && 0 <= m && n + m == |c|
    requires Loop(Decrypt, pi, s, regs, c, 0, 0, |c|, n, StepSize(s)) == Success(ch1)
    requires Loop(Decrypt, pi, s, ch1.regs, c, n, n, |c|, m, StepSize(s)) == Success(ch2)
    ensures Loop(Decrypt, pi, s, regs, c, 0, 0, |c|, |c|, StepSize(s)) == Success(Chunked(ch1.written + ch2.written, ch2.regs))
  {
    LoopSplit(Decrypt, pi, s, regs, c, 0, 0, |c|, n, m, StepSize(s), n, n);
  }

  /** Where c1 + c2 is cut at n, inside c1. */
  lemma ConcatParts(c1: seq<bv8>, c2: seq<bv8>, n: int)
    requires 0 <= n <= |c1|
    ensures (c1 + c2)[0..n] == c1[0..n] && (c1 + c2)[n..] == c1[n..] + c2
  {
  }

  /** Two runs of whole blocks make a run of whole blocks. */
  lemma WholeBlocksConcat(c1: seq<bv8>, c2: seq<bv8>)
    requires |c1| % InputBlockSize == 0 && |c2| % InputBlockSize == 0
    ensures |c1 + c2| % InputBlockSize == 0
  {
    var a, b := |c1|, |c2|;
    assert a % 16 == 0 && b % 16 == 0 && InputBlockSize == 16;
    assert (a + b) % 16 == 0;
  }

  /** A final decryption whose loop writes w1 + w2, where w2 passes the padding check, keeps w1 in front. */
  lemma OneShotFinal(s: Settings, padding: PaddingMode, st: TransformState, c: seq<bv8>, w1: seq<bv8>, w2: seq<bv8>,
                     plain: seq<bv8>, regs: Registers, random: seq<bv8>)
    requires StateValid(Config(Decrypt, s, padding), st) && st.depad.Null? && |random| == InputBlockSize
    requires !IsStreamMode(s.mode) ==> |c| % InputBlockSize == 0
    requires Loop(Decrypt, st.pi, s, st.regs, c, 0, 0, |c|, |c|, StepSize(s)) == Success(Chunked(w1 + w2, regs))
    requires |w1 + w2| == |c| && InputBlockSize <= |w2| && Depad(padding, w2) == Success(plain)
    ensures TransformFinalBlock(Config(Decrypt, s, padding), st, NonNull(c), 0, |c|, random) ==
              Success(Finished(w1 + plain, ResetState(st.(regs := regs))))
  {
    FinalDecryptLoop(s, padding, st, c, w1 + w2, random);
    DepadPrefix(padding, w1, w2);
  }

  /**
   * Streaming a decryption that strips padding gives what one final decryption gives: a
   * TransformBlock over c1, which holds its last block back, and then a TransformFinalBlock over
   * c2 return the bytes that a single TransformFinalBlock over c1 + c2 returns, and leave the same
   * state. The first call must end on a whole step, which every mode but CFB with a shift size
   * that does not divide 16 does on whole blocks.
   */
  lemma StreamedDecryption(s: Settings, padding: PaddingMode, st: TransformState, c1: seq<bv8>, out: seq<bv8>,
                           c2: seq<bv8>, random: seq<bv8>)
    requires StateValid(Config(Decrypt, s, padding), st) && st.depad.Null? && Strips(padding) && |random| == InputBlockSize
    requires TransformBlock(Config(Decrypt, s, padding), st, NonNull(c1), 0, |c1|, NonNull(out), 0).Success?
    requires WholeSteps(|c1| - InputBlockSize, StepSize(s))
    requires TransformFinalBlock(Config(Decrypt, s, padding),
                                 TransformBlock(Config(Decrypt, s, padding), st, NonNull(c1), 0, |c1|, NonNull(out), 0).value.state,
                                 NonNull(c2), 0, |c2|, random).Success?
    ensures InputBlockSize <= |c1| &&
            |c1| - InputBlockSize <= |TransformBlock(Config(Decrypt, s, padding), st, NonNull(c1), 0, |c1|, NonNull(out), 0).value.output|
    ensures var t := TransformBlock(Config(Decrypt, s, padding), st, NonNull(c1), 0, |c1|, NonNull(out), 0).value;
            var f := TransformFinalBlock(Config(Decrypt, s, padding), t.state, NonNull(c2), 0, |c2|, random).value;
            TransformFinalBlock(Config(Decrypt, s, padding), st, NonNull(c1 + c2), 0, |c1 + c2|, random) ==
              Success(Finished(t.output[..|c1| - InputBlockSize] + f.output, f.state))
  {
    var cfg := Config(Decrypt, s, padding);
    var n := |c1| - InputBlockSize;
    var count := StepSize(s);
    var t := TransformBlock(cfg, st, NonNull(c1), 0, |c1|, NonNull(out), 0).value;
    assert InputBlockSize <= |c1| && |c1| % InputBlockSize == 0 &&
           Loop(Decrypt, st.pi, s, st.regs, c1, 0, 0, n, n, count).Success? by {
      var w1 := HeldBackFirstLoop(s, padding, st, c1, out);
    }
    var ch1 := Loop(Decrypt, st.pi, s, st.regs, c1, 0, 0, n, n, count).value;
    assert |ch1.written| == n && n <= |t.output| && t.output[..n] == ch1.written &&
           t.state == TransformState(st.pi, ch1.regs, NonNull(c1[n..])) && StateValid(cfg, t.state) by {
      var w1 := HeldBackFirstLoop(s, padding, st, c1, out);
    }
    var d := c1[n..] + c2;
    var f := TransformFinalBlock(cfg, t.state, NonNull(c2), 0, |c2|, random).value;
    assert Loop(Decrypt, st.pi, s, ch1.regs, d, 0, 0, |d|, |d|, count).Success? by {
      HeldBackFinalLoop(s, padding, t.state, c1[n..], c2, random);
    }
    var ch2 := Loop(Decrypt, st.pi, s, ch1.regs, d, 0, 0, |d|, |d|, count).value;
    assert |ch2.written| == |d| && Depad(padding, ch2.written) == Success(f.output) &&
           f.state == ResetState(st.(regs := ch2.regs)) && (!IsStreamMode(s.mode) ==> |c2| % InputBlockSize == 0) by {
      HeldBackFinalLoop(s, padding, t.state, c1[n..], c2, random);
    }
    assert Loop(Decrypt, st.pi, s, st.regs, c1 + c2, 0, 0, |c1 + c2|, |c1 + c2|, count) ==
           Success(Chunked(ch1.written + ch2.written, ch2.regs)) by {
      ConcatParts(c1, c2, n);
      OneShotLoop(s, st.pi, st.regs, c1, c1 + c2, n, d, ch1, ch2);
    }
    if !IsStreamMode(s.mode) {
      WholeBlocksConcat(c1, c2);
    }
    OneShotFinal(s, padding, st, c1 + c2, ch1.written, ch2.written, f.output, ch2.regs, random);
  }
}
