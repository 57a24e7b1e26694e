/**
 * The transform object of Crypto/ManagedTransformBase.cs: the feedback register, the IV, the CTR
 * counter, the first-block flag and the held-back block of a decryption are arrays it updates in
 * place, and TransformBlock, TransformFinalBlock, EncryptData, DecryptData, IncrementCounter and
 * Reset are methods over them. Every method is proved against the functions of TransformSpec and
 * CipherModes. The Serpent object the source derives from is held as a field.
 */
module Engine {
  import opened Outcomes
  import opened Enums
  import opened Utils
  import Buffers
  import opened CipherModes
  import opened Padding
  import opened TransformSpec
  import opened SerpentSBoxes
  import opened SerpentKeys
  import opened SerpentTransform
  import Network = SerpentNetwork

  /** Two array references that are not one array (null is apart from everything). */
  predicate Apart(a: array?<bv8>, b: array?<bv8>)
  {
    a == null || a != b
  }

  /** The contents of an array reference, as a value. */
  ghost function Contents(a: array?<bv8>): (r: Nullable<seq<bv8>>)
    reads a
    ensures r.NonNull? <==> a != null
  {
    if a == null then Null else NonNull(a[..])
  }

  /**
   * How the transform's arrays hang together: they are distinct from each other and from the key,
   * the counter size is the counter's length, a held-back block is one block, and the transform is
   * either live (the key schedule, a one-block register and IV, and a counter the constructor's
   * rule allows) or reset (all dropped).
   */
  ghost predicate Wired(s: Settings, expandedKey: Nullable<seq<Quad>>, schedule: seq<Quad>, key: array?<bv8>,
                        feedbackValue: array?<bv8>, iv: array?<bv8>, counter: array?<bv8>, depadBuffer: array?<bv8>,
                        counterSize: int, initial: bool)
  {
    ValidSettings(s) &&
    Apart(feedbackValue, iv) && Apart(feedbackValue, counter) && Apart(feedbackValue, depadBuffer) &&
    Apart(iv, counter) && Apart(iv, depadBuffer) && Apart(counter, depadBuffer) &&
    Apart(key, feedbackValue) && Apart(key, iv) && Apart(key, counter) && Apart(key, depadBuffer) &&
    counterSize == (if counter == null then 0 else counter.Length) &&
    (depadBuffer != null ==> depadBuffer.Length == InputBlockSize) &&
    (expandedKey.NonNull? ==> expandedKey.value == schedule) &&
    ((expandedKey.NonNull? && feedbackValue != null && feedbackValue.Length == BlockSize &&
      iv != null && iv.Length == BlockSize && (counter == null ==> !initial) &&
      (counter != null ==> CounterFits(s.nonce, counter.Length))) ||
     (expandedKey.Null? && feedbackValue == null && iv == null && counter == null))
  }

  /**
   * A method's result agrees with what the step, loop or operation spec computes: on success the
   * output and the registers are the spec's, on failure the exception is.
   */
  ghost predicate Agrees(spec: Result<Stepped>, r: Result<()>, out: seq<bv8>, regs: Registers)
  {
    match spec
    case Success(st) => r.Success? && out == st.out && regs == st.regs
    case Failure(e) => r == Failure(e)
  }

  /** Writing w and then x before rest is writing w + x before it. */
  lemma PrependChain(spec: Result<Chunked>, w: seq<bv8>, rest: Result<Chunked>, x: seq<bv8>, rest': Result<Chunked>)
    requires spec == Prepend(w, rest) && rest == Prepend(x, rest')
    ensures spec == Prepend(w + x, rest')
  {
    PrependTwice(w, x, rest');
  }

  /**
   * A loop's result agrees with the loop spec: on success the output holds what the spec wrote,
   * spliced in at o over what it held before, and the registers are the spec's; on failure the
   * exception is.
   */
  ghost predicate Filled(spec: Result<Chunked>, r: Result<()>, out: seq<bv8>, before: seq<bv8>, o: int, regs: Registers)
  {
    match spec
    case Success(ch) =>
      r.Success? && regs == ch.regs && (ch.written == [] || (0 <= o && o + |ch.written| <= |before|)) &&
      out == Splice(before, o, ch.written)
    case Failure(e) => r == Failure(e)
  }

  /**
   * The block a loop pass works on: `new byte[BlockSizeBytes]` and the Array.Copy of count bytes
   * of the input from at on (all that is left when less than a block remains), which throws on a
   * negative index or length.
   */
  method ReadBlockInto(buf: seq<bv8>, at: int, count: int) returns (block: array<bv8>, ok: bool)
    requires 1 <= count <= BlockSize
    ensures fresh(block) && block.Length == BlockSize
    ensures ok <==> ReadBlock(buf, at, count).Success?
    ensures ok ==> block[..] == ReadBlock(buf, at, count).value
  {
    block := new bv8[BlockSize](_ => 0);
    ghost var zeros := block[..];
    assert zeros == Buffers.Zeros(BlockSize);
    var bytesToCopy := count;
    if BlockSize + at > |buf| {
      bytesToCopy := |buf| - at;
    }
    if at < 0 || bytesToCopy < 0 {
      return block, false;
    }
    Buffers.CopyIn(buf, at, block, 0, bytesToCopy);
    assert zeros[..0] == [] && zeros[bytesToCopy..] == Buffers.Zeros(BlockSize - bytesToCopy);
    return block, true;
  }

  /**
   * The end of a loop pass: count bytes of the block, or what is left of the output, copied to
   * the output at o.
   */
  method WritePass(block: array<bv8>, output: array<bv8>, o: int, count: int) returns (n: int)
    requires block != output && 0 <= o && 1 <= count <= block.Length && o < output.Length
    modifies output
    ensures n == PassLength(o, output.Length, count) && 1 <= n && o + n <= output.Length
    ensures output[o..o + n] == old(block[..])[..n]
    ensures output[..] == old(output[..o]) + output[o..o + n] + old(output[o + n..])
  {
    n := if o + count > output.Length then output.Length - o else count;
    Buffers.Copy(block, 0, output, o, n);
    assert output[o..o + n] == block[..n];
  }

  /** The loop `a[at + i] ^= b[i]` for i < n, which the modes use to combine a block with a register. */
  method XorInto(a: array<bv8>, at: int, b: seq<bv8>, n: int)
    requires 0 <= n <= |b| && 0 <= at && at + n <= a.Length
    modifies a
    ensures a[..] == old(a[..at]) + XorBytes(old(a[at..at + n]), b[..n]) + old(a[at + n..])
  {
    for i := 0 to n
      invariant forall k :: 0 <= k < a.Length ==> a[k] == if at <= k < at + i then old(a[k]) ^ b[k - at] else old(a[k])
    {
      a[at + i] := a[at + i] ^ b[i];
    }
    assert a[..] == old(a[..at]) + XorBytes(old(a[at..at + n]), b[..n]) + old(a[at + n..]) by {
      var x := XorBytes(old(a[at..at + n]), b[..n]);
      forall k | 0 <= k < a.Length
        ensures a[k] == (old(a[..at]) + x + old(a[at + n..]))[k]
      {
        if at <= k < at + n {
          assert x[k - at] == old(a[k]) ^ b[k - at];
        }
      }
    }
  }

  /** The loop `a[i] ^= b[i]` for i < n. */
  method XorPrefix(a: array<bv8>, b: seq<bv8>, n: int)
    requires 0 <= n <= |b| && n <= a.Length
    modifies a
    ensures a[..] == XorBytes(old(a[..n]), b[..n]) + old(a[n..])
  {
    XorInto(a, 0, b, n);
    assert old(a[..0]) == [] && old(a[0..n]) == old(a[..n]);
  }

  /** The loop `a[i] ^= b[i]` over a whole block. */
  method XorBlock(a: array<bv8>, b: seq<bv8>)
    requires a.Length == |b|
    modifies a
    ensures a[..] == XorBytes(old(a[..]), b)
  {
    for i := 0 to a.Length
      invariant forall k :: 0 <= k < a.Length ==> a[k] == if k < i then old(a[k]) ^ b[k] else old(a[k])
    {
      a[i] := a[i] ^ b[i];
    }
  }

  /** A new array holding a copy of the block (the source's `tempState`). */
  method Save(block: array<bv8>) returns (t: array<bv8>)
    ensures fresh(t) && t[..] == block[..]
  {
    t := new bv8[block.Length](_ => 0);
    Buffers.CopyTo(block, t, 0);
  }

  /** `Array.Copy(fb, count, tempState, 0, 16 - count)` into a new block: the register after its first count bytes. */
  method SaveTail(fb: array<bv8>, count: int) returns (t: array<bv8>)
    requires fb.Length == BlockSize && 1 <= count <= BlockSize
    ensures fresh(t) && t.Length == BlockSize && t[..BlockSize - count] == fb[count..]
  {
    t := new bv8[BlockSize](_ => 0);
    Buffers.Copy(fb, count, t, 0, BlockSize - count);
  }

  /**
   * CFB decryption's `tempState`: the first count bytes of the ciphertext block copied to its end,
   * then the register after its first count bytes copied to its start.
   */
  method SaveShift(fb: array<bv8>, block: array<bv8>, count: int) returns (t: array<bv8>)
    requires fb.Length == BlockSize && block.Length == BlockSize && 1 <= count <= BlockSize
    ensures fresh(t) && t[..] == fb[count..] + block[..count]
  {
    t := new bv8[BlockSize](_ => 0);
    Buffers.Copy(block, 0, t, BlockSize - count, count);
    Buffers.Copy(fb, count, t, 0, BlockSize - count);
  }

  /** CFB: the encrypted register's first count bytes are xored with the block's, and copied back into the block. */
  method CfbMix(fb: array<bv8>, block: array<bv8>, count: int)
    requires fb != block && fb.Length == BlockSize && block.Length == BlockSize && 1 <= count <= BlockSize
    modifies fb, block
    ensures block[..] == XorBytes(old(fb[..count]), old(block[..count])) + old(block[count..])
  {
    XorInto(fb, 0, block[..], count);
    Buffers.Copy(fb, 0, block, 0, count);
  }

  /** CFB encryption's new register: the saved bytes, then the count ciphertext bytes. */
  method ShiftIn(fb: array<bv8>, t: array<bv8>, block: array<bv8>, count: int)
    requires fb != t && fb != block && fb.Length == BlockSize && t.Length == BlockSize && block.Length == BlockSize
    requires 1 <= count <= BlockSize
    modifies fb
    ensures fb[..] == t[..BlockSize - count] + block[..count]
  {
    Buffers.CopyTo(t, fb, 0);
    Buffers.Copy(block, 0, fb, BlockSize - count, count);
  }

  /** OFB's new register: the encrypted register's first count bytes moved to its end, the saved bytes before them. */
  method OfbShift(fb: array<bv8>, t: array<bv8>, count: int)
    requires fb != t && fb.Length == BlockSize && t.Length == BlockSize && 1 <= count <= BlockSize
    modifies fb
    ensures fb[..] == t[..BlockSize - count] + old(fb[..count])
  {
    Buffers.CopyWithin(fb, 0, BlockSize - count, count);
    Buffers.Copy(t, 0, fb, 0, BlockSize - count);
  }

  /** The body of IncrementCounter on a counter of size bytes; an empty counter has no last byte to read. */
  method IncrementBytes(counter: array<bv8>, size: int) returns (r: Result<()>)
    requires size == counter.Length
    modifies counter
    ensures match Increment(old(counter[..]))
      case Success(c) => r.Success? && counter[..] == c
      case Failure(e) => r == Failure(e)
  {
    if size == 0 {
      return Failure(IndexOutOfRange);
    }
    r := RippleBytes(counter);
  }

  /** A last byte below 0xFF is incremented; otherwise the carry ripples. */
  method RippleBytes(counter: array<bv8>) returns (r: Result<()>)
    requires counter.Length >= 1
    modifies counter
    ensures match Ripple(old(counter[..]))
      case Success(c) => r.Success? && counter[..] == c
      case Failure(e) => r == Failure(e)
  {
    var last := counter.Length - 1;
    if counter[last] < 255 {
      counter[last] := counter[last] + 1;
      assert counter[..] == old(counter[..last]) + [old(counter[last]) + 1];
      return Success(());
    }
    r := CarryBytes(counter);
  }

  /**
   * The carry loop of IncrementCounter: the 0xFF bytes from the end leftwards become zero and
   * the first byte below 0xFF is incremented; when every byte is 0xFF the carry runs out and the
   * call throws.
   */
  method CarryBytes(counter: array<bv8>) returns (r: Result<()>)
    requires counter.Length >= 1 && counter[counter.Length - 1] == 255
    modifies counter
    ensures match Ripple(old(counter[..]))
      case Success(c) => r.Success? && counter[..] == c
      case Failure(e) => r == Failure(e)
  {
    ghost var c0 := counter[..];
    var index := counter.Length - 1;
    while counter[index] == 255
      invariant 0 <= index < counter.Length
      invariant forall k :: 0 <= k <= index ==> counter[k] == c0[k]
      invariant forall k :: index < k < counter.Length ==> counter[k] == 0 && c0[k] == 255
      decreases index
    {
      counter[index] := 0;
      index := index - 1;
      if index < 0 {
        RippleOverflow(c0);
        return Failure(Cryptographic);
      }
    }
    counter[index] := counter[index] + 1;
    RippleCarry(c0, index);
    assert counter[..] == c0[..index] + [c0[index] + 1] + Buffers.Zeros(counter.Length - index - 1);
    return Success(());
  }

  /** `new byte[BlockSizeBytes]` followed by `rgbIv.CopyTo(block, 0)` when there is an IV. */
  method NewBlock(rgbIv: Nullable<seq<bv8>>) returns (block: array<bv8>)
    requires rgbIv.NonNull? ==> |rgbIv.value| <= BlockSize
    ensures fresh(block) && block[..] == InitialBlock(rgbIv)
  {
    block := new bv8[BlockSize](_ => 0);
    assert block[..] == Buffers.Zeros(BlockSize);
    if rgbIv.NonNull? {
      Buffers.CopyIn(rgbIv.value, 0, block, 0, |rgbIv.value|);
      assert block[..] == [] + rgbIv.value + Buffers.Zeros(BlockSize)[|rgbIv.value|..];
    }
  }

  /**
   * The arrays of the constructor: the register and the IV, and in CTR with an IV the counter of
   * the combination rule, its size, and the first-block flag.
   */
  method NewRegisters(rgbIv: Nullable<seq<bv8>>, mode: ExtendedCipherMode, nonce: NonceCombinationMode)
    returns (fb: array<bv8>, ivCopy: array<bv8>, ctr: array?<bv8>, size: int, first: bool)
    requires rgbIv.NonNull? ==> |rgbIv.value| <= BlockSize
    ensures fresh(fb) && fresh(ivCopy) && (ctr != null ==> fresh(ctr)) && fb != ivCopy && ctr != fb && ctr != ivCopy
    ensures Registers(NonNull(fb[..]), NonNull(ivCopy[..]), Contents(ctr), first) == InitialRegisters(mode, nonce, rgbIv)
    ensures size == (if ctr == null then 0 else ctr.Length)
  {
    fb := NewBlock(rgbIv);
    ivCopy := NewBlock(rgbIv);
    ctr, size, first := null, 0, false;
    if rgbIv.NonNull? && mode == CTR {
      match nonce {
        case Concatenate =>
          size := BlockSize - |rgbIv.value|;
          ctr := new bv8[size](_ => 0);
        case Xor =>
          size := BlockSize;
          ctr := new bv8[size](_ => 0);
        case Add =>
          size := BlockSize;
          var clone := new bv8[BlockSize](_ => 0);
          Buffers.Copy(fb, 0, clone, 0, BlockSize);
          ctr := clone;
      }
      first := true;
      assert ctr[..] == InitialRegisters(mode, nonce, rgbIv).counter.value;
    }
  }

  /**
   * The padding bytes of a final encryption, in a new array: PKCS7 fills it with the size, ANSI
   * X9.23 sets the last byte to the size, ISO 10126 fills it from the generator (the parameter
   * random) and then sets the last byte; zero padding leaves the zeros.
   */
  method PaddingData(padding: PaddingMode, size: int, random: seq<bv8>) returns (data: array<bv8>)
    requires 1 <= size <= InputBlockSize && |random| == InputBlockSize
    ensures fresh(data) && data[..] == PaddingBytes(padding, size, random)
  {
    data := new bv8[size](_ => 0);
    match padding {
      case PKCS7 =>
        var index := 0;
        while index < size
          invariant 0 <= index <= size
          invariant forall k :: 0 <= k < size ==> data[k] == if k < index then size as bv8 else 0
        {
          data[index] := size as bv8;
          index := index + 1;
        }
      case ANSIX923 =>
        data[size - 1] := size as bv8;
        assert data[..size - 1] == Buffers.Zeros(size - 1);
      case ISO10126 =>
        Buffers.CopyIn(random, 0, data, 0, size);
        data[size - 1] := size as bv8;
        assert data[..size - 1] == random[..size - 1];
      case _ =>
    }
  }

  /**
   * The buffer the encryption loop reads, the offset it reads from, and the padding size: a final
   * call computes the size; a non-zero size makes a new buffer of the count input bytes from the
   * input offset followed by the padding bytes, read from 0 on.
   */
  method PadInput(padding: PaddingMode, mode: ExtendedCipherMode, input: seq<bv8>, inputOffset: int, count: int,
                  final: bool, random: seq<bv8>) returns (r: Result<nat>, buf: seq<bv8>, at: int)
    requires 0 <= inputOffset && 0 <= count && inputOffset + count <= |input| && |random| == InputBlockSize
    ensures r == if final then PaddingSize(padding, mode, count) else Success(0)
    ensures r.Success? ==> r.value <= InputBlockSize && buf == PaddedInput(padding, input, inputOffset, count, r.value, random)
    ensures r.Success? ==> at == PaddedOffset(inputOffset, r.value)
  {
    buf, at := input, inputOffset;
    if !final {
      return Success(0), buf, at;
    }
    r := PaddingSize(padding, mode, count);
    if r.Failure? || r.value == 0 {
      return;
    }
    var size := r.value;
    var data := PaddingData(padding, size, random);
    var tempBuffer := new bv8[count + size](_ => 0);
    Buffers.CopyIn(input, inputOffset, tempBuffer, 0, count);
    ghost var copied := tempBuffer[..];
    assert copied[..count] == input[inputOffset..inputOffset + count];
    assert copied[count + size..] == [];
    Buffers.CopyTo(data, tempBuffer, count);
    assert tempBuffer[..] == input[inputOffset..inputOffset + count] + data[..] + [];
    buf, at := tempBuffer[..], 0;
  }

  /**
   * The padding check of a final decryption on its output: the size is the last byte, must lie
   * in 1 .. 16 and within the output, and the bytes before it are checked from the end (PKCS7:
   * each the size, ANSI X9.23: zero); a non-zero size leaves a new array without the padding.
   */
  method Depadded(padding: PaddingMode, buffer: array<bv8>) returns (r: Result<int>, result: array<bv8>)
    ensures result == buffer || fresh(result)
    ensures match Depad(padding, old(buffer[..]))
            case Success(plain) => r == Success(|plain|) && result[..] == plain
            case Failure(e) => r == Failure(e)
  {
    result := buffer;
    ghost var plain := buffer[..];
    if !Strips(padding) {
      return Success(buffer.Length), buffer;
    }
    if buffer.Length == 0 {
      return Failure(IndexOutOfRange), buffer;
    }
    var paddingSize := buffer[buffer.Length - 1] as int;
    if paddingSize > buffer.Length || paddingSize > InputBlockSize || paddingSize <= 0 {
      return Failure(Cryptographic), buffer;
    }
    if padding != ISO10126 {
      var x: bv8 := if padding == PKCS7 then paddingSize as bv8 else 0;
      var index := 2;
      while index <= paddingSize
        invariant 2 <= index <= paddingSize + 1
        invariant forall k :: buffer.Length - index < k < buffer.Length - 1 ==> plain[k] == x
      {
        if buffer[buffer.Length - index] != x {
          assert plain[buffer.Length - index] != x;
          assert !PaddingFilled(plain, paddingSize, x);
          return Failure(Cryptographic), buffer;
        }
        index := index + 1;
      }
      assert PaddingFilled(plain, paddingSize, x);
    }
    assert Depad(padding, plain) == Success(plain[..buffer.Length - paddingSize]);
    result := new bv8[buffer.Length - paddingSize](_ => 0);
    Buffers.Copy(buffer, 0, result, 0, buffer.Length - paddingSize);
    assert result[..] == [] + plain[0..buffer.Length - paddingSize] + [];
    r := Success(buffer.Length - paddingSize);
  }

  /** The output cut to its first count bytes, in a new array, when trim says so. */
  method Trimmed(buffer: array<bv8>, count: int, trim: bool) returns (result: array<bv8>)
    requires trim ==> 0 <= count <= buffer.Length
    ensures trim ==> fresh(result) && result[..] == buffer[..count]
    ensures !trim ==> result == buffer
  {
    result := buffer;
    if trim {
      result := new bv8[count](_ => 0);
      Buffers.Copy(buffer, 0, result, 0, count);
      assert result[..] == [] + buffer[0..count] + [];
    }
  }

  /**
   * What EncryptData or DecryptData hands back agrees with the spec: the return value, the
   * registers, the array the output reference ends up holding, whether that is another array
   * than the caller's, and what the caller's array holds; or the exception.
   */
  ghost predicate Delivered(spec: Result<Written>, r: Result<int>, caller: Nullable<seq<bv8>>, result: Nullable<seq<bv8>>,
                            moved: bool, regs: Registers)
  {
    match spec
    case Success(w) =>
      r == Success(w.count) && regs == w.regs && result == NonNull(w.buffer) && moved == w.moved &&
      (caller.NonNull? ==> caller.value == w.target)
    case Failure(e) => r == Failure(e)
  }

  /** The Serpent object, which keeps the key and computes its schedule. */
  method NewCipher(rgbKey: array<bv8>) returns (c: SerpentManagedTransform)
    requires LegalKeyLength(rgbKey.Length)
    ensures fresh(c) && c.Valid() && c.key == rgbKey
    ensures ExpandKey(rgbKey[..]).Success? && c.expandedKey == NonNull(ExpandKey(rgbKey[..]).value)
    ensures Network.IsExpandedKey(c.expandedKey.value)
    ensures Computes(SerpentPermutation(c.expandedKey.value), c.expandedKey.value)
    ensures Invertible(SerpentPermutation(c.expandedKey.value))
  {
    c := new SerpentManagedTransform(rgbKey);
    SerpentComputes(c.expandedKey.value);
    SerpentInvertible(c.expandedKey.value);
  }

  class ManagedTransformBase {
    /** The Serpent object whose EncryptBlock, DecryptBlock and Reset the transform calls. */
    const cipher: SerpentManagedTransform
    /** The expanded key the Serpent object computed at construction. */
    ghost const schedule: seq<Quad>
    /** Serpent under that expanded key, as a block permutation. */
    ghost const perm: Permutation
    const transformDirection: TransformDirection
    const paddingMode: PaddingMode
    const mode: ExtendedCipherMode
    const nonceCombinationMode: NonceCombinationMode
    const registerShiftSize: int

    /** The last block of a decryption, held back until the final call; null until the first call. */
    var depadBuffer: array?<bv8>
    /** The feedback register (CBC, CFB, OFB), or the encrypted counter block (CTR). */
    var feedbackValue: array?<bv8>
    var iv: array?<bv8>
    var counter: array?<bv8>
    var counterSize: int
    /** The next CTR block is the first, which uses the counter without incrementing it. */
    var initial: bool

    function CipherSettings(): Settings
    {
      Settings(mode, nonceCombinationMode, registerShiftSize)
    }

    function Configuration(): Config
    {
      Config(transformDirection, CipherSettings(), paddingMode)
    }

    /** The block permutation of the Serpent object's expanded key; none once Reset dropped it. */
    ghost function Pi(): Nullable<Permutation>
      reads cipher
    {
      if cipher.expandedKey.NonNull? then NonNull(perm) else Null
    }

    ghost function Regs(): Registers
      reads this, feedbackValue, iv, counter
    {
      Registers(Contents(feedbackValue), Contents(iv), Contents(counter), initial)
    }

    ghost function State(): TransformState
      reads this, cipher, feedbackValue, iv, counter, depadBuffer
    {
      TransformState(Pi(), Regs(), Contents(depadBuffer))
    }

    /** An array of the caller's that is none of the transform's own arrays nor the key. */
    ghost predicate Owned(a: array<bv8>)
      reads this, cipher
    {
      a != feedbackValue && a != iv && a != counter && a != depadBuffer && a != cipher.key
    }

    /**
     * The arrays are distinct, the counter size is the counter's length, and the transform is
     * either live (a key schedule and one-block register and IV) or reset (all dropped).
     */
    ghost predicate Valid()
      reads this, cipher
    {
      cipher.Valid() && Invertible(perm) && Computes(perm, schedule) &&
      Wired(CipherSettings(), cipher.expandedKey, schedule, cipher.key, feedbackValue, iv, counter, depadBuffer, counterSize,
            initial)
    }

    /**
     * The constructor: the settings come from the algorithm, the register and the IV are new
     * blocks holding the caller's IV (zeros without one), and in CTR with an IV the counter is set
     * up by the combination rule and the first-block flag raised. The Serpent object then keeps
     * the key and computes its schedule.
     */
    constructor(rgbKey: array<bv8>, rgbIv: Nullable<seq<bv8>>, direction: TransformDirection, padding: PaddingMode,
                cipherMode: ExtendedCipherMode, nonce: NonceCombinationMode, shiftSize: int)
      requires LegalKeyLength(rgbKey.Length)
      requires rgbIv.NonNull? ==> |rgbIv.value| <= BlockSize
      requires cipherMode == CFB ==> 0 <= shiftSize <= BlockSize
      ensures Valid() && Pi().NonNull? && depadBuffer == null
      ensures transformDirection == direction && paddingMode == padding && mode == cipherMode
      ensures nonceCombinationMode == nonce && registerShiftSize == shiftSize
      ensures cipher.key == rgbKey && ExpandKey(rgbKey[..]).Success? && cipher.expandedKey == NonNull(ExpandKey(rgbKey[..]).value)
      ensures Pi() == KeyPermutation(cipher.expandedKey)
      ensures Regs() == InitialRegisters(cipherMode, nonce, rgbIv)
    {
      transformDirection, paddingMode, mode := direction, padding, cipherMode;
      nonceCombinationMode, registerShiftSize := nonce, shiftSize;
      var fb, ivCopy, ctr, size, first := NewRegisters(rgbIv, cipherMode, nonce);
      var serpent := NewCipher(rgbKey);
      feedbackValue, iv, counter, counterSize, initial := fb, ivCopy, ctr, size, first;
      depadBuffer := null;
      cipher := serpent;
      schedule := serpent.expandedKey.value;
      perm := SerpentPermutation(serpent.expandedKey.value);
      new;
    }

    /** A valid transform's state is a well-formed state of the spec. */
    lemma ValidState()
      requires Valid()
      ensures WellFormed(Pi(), CipherSettings(), Regs()) && StateValid(Configuration(), State())
    {
    }

    /** EncryptBlock of the Serpent object, on a live key schedule. */
    method EncryptBlock(block: array<bv8>)
      requires Valid() && cipher.expandedKey.NonNull? && block.Length == BlockSize
      modifies block
      ensures Pi().NonNull? && block[..] == Pi().value.encrypt(old(block[..]))
    {
      cipher.EncryptBlock(block);
    }

    /** DecryptBlock of the Serpent object, on a live key schedule. */
    method DecryptBlock(block: array<bv8>)
      requires Valid() && cipher.expandedKey.NonNull? && block.Length == BlockSize
      modifies block
      ensures Pi().NonNull? && block[..] == Pi().value.decrypt(old(block[..]))
    {
      cipher.DecryptBlock(block);
    }

    // ---- one step of a mode ----

    /** ECB: the block is en- or decrypted; the dropped expanded key throws NullReferenceException. */
    method EcbStep(dir: TransformDirection, block: array<bv8>, count: int) returns (r: Result<()>)
      requires Valid() && mode == ECB && block.Length == BlockSize && Owned(block) && count == StepSize(CipherSettings())
      modifies block
      ensures Valid()
      ensures Agrees(Step(dir, old(Pi()), CipherSettings(), old(Regs()), old(block[..]), count), r, block[..], Regs())
    {
      if cipher.expandedKey.Null? {
        return Failure(NullReference);
      }
      if dir == Encrypt {
        EncryptBlock(block);
      } else {
        DecryptBlock(block);
      }
      return Success(());
    }

    /** CBC encryption on a live register: the block xored with the register, encrypted, becomes the register. */
    method CbcEncrypt(block: array<bv8>)
      requires Valid() && feedbackValue != null && cipher.expandedKey.NonNull? && block.Length == BlockSize && Owned(block)
      modifies block, feedbackValue
      ensures Pi().NonNull? && block[..] == Pi().value.encrypt(XorBytes(old(block[..]), old(feedbackValue[..])))
      ensures feedbackValue[..] == block[..]
    {
      XorBlock(block, feedbackValue[..]);
      assert block[..] == XorBytes(old(block[..]), old(feedbackValue[..]));
      EncryptBlock(block);
      Buffers.CopyTo(block, feedbackValue, 0);
    }

    /** CBC decryption on a live register: the decrypted block xored with the register; the ciphertext becomes the register. */
    method CbcDecrypt(block: array<bv8>)
      requires Valid() && feedbackValue != null && cipher.expandedKey.NonNull? && block.Length == BlockSize && Owned(block)
      modifies block, feedbackValue
      ensures Pi().NonNull? && block[..] == XorBytes(Pi().value.decrypt(old(block[..])), old(feedbackValue[..]))
      ensures feedbackValue[..] == old(block[..])
    {
      ghost var f0 := feedbackValue[..];
      var tempState := Save(block);
      DecryptBlock(block);
      XorBlock(block, feedbackValue[..]);
      Buffers.CopyTo(tempState, feedbackValue, 0);
    }

    /**
     * CBC: encryption xors the register in and encrypts, and the ciphertext becomes the register;
     * decryption decrypts and xors the register in, and the ciphertext it read becomes the register.
     * With the register dropped, indexing it (or the expanded key) throws.
     */
    method CbcStep(dir: TransformDirection, block: array<bv8>, count: int) returns (r: Result<()>)
      requires Valid() && mode == CBC && block.Length == BlockSize && Owned(block) && count == StepSize(CipherSettings())
      modifies block, feedbackValue
      ensures Valid()
      ensures Agrees(Step(dir, old(Pi()), CipherSettings(), old(Regs()), old(block[..]), count), r, block[..], Regs())
    {
      if feedbackValue == null {
        return Failure(NullReference);
      }
      if dir == Encrypt {
        CbcEncrypt(block);
      } else {
        CbcDecrypt(block);
      }
      return Success(());
    }
    /** CFB encryption on a live register: the block's first count bytes xored with the encrypted register are shifted into it. */
    method CfbEncrypt(block: array<bv8>, count: int)
      requires Valid() && feedbackValue != null && cipher.expandedKey.NonNull? && block.Length == BlockSize && Owned(block)
      requires 1 <= count <= BlockSize
      modifies block, feedbackValue
      ensures Pi().NonNull?
      ensures block[..] == XorBytes(Pi().value.encrypt(old(feedbackValue[..]))[..count], old(block[..count])) + old(block[count..])
      ensures feedbackValue[..] == old(feedbackValue[count..]) + block[..count]
    {
      var tempState := SaveTail(feedbackValue, count);
      EncryptBlock(feedbackValue);
      CfbMix(feedbackValue, block, count);
      ShiftIn(feedbackValue, tempState, block, count);
    }

    /** CFB decryption on a live register: the same xor, and the block's first count ciphertext bytes are shifted in. */
    method CfbDecrypt(block: array<bv8>, count: int)
      requires Valid() && feedbackValue != null && cipher.expandedKey.NonNull? && block.Length == BlockSize && Owned(block)
      requires 1 <= count <= BlockSize
      modifies block, feedbackValue
      ensures Pi().NonNull?
      ensures block[..] == XorBytes(Pi().value.encrypt(old(feedbackValue[..]))[..count], old(block[..count])) + old(block[count..])
      ensures feedbackValue[..] == old(feedbackValue[count..]) + old(block[..count])
    {
      var tempState := SaveShift(feedbackValue, block, count);
      EncryptBlock(feedbackValue);
      CfbMix(feedbackValue, block, count);
      Buffers.CopyTo(tempState, feedbackValue, 0);
    }

    /**
     * CFB, count bytes at a time: the first count bytes are xored with the encrypted register, and
     * the ciphertext among them is shifted into the register. A dropped register throws
     * ArgumentNullException from the first Array.Copy.
     */
    method CfbStep(dir: TransformDirection, block: array<bv8>, count: int) returns (r: Result<()>)
      requires Valid() && mode == CFB && block.Length == BlockSize && Owned(block) && count == StepSize(CipherSettings())
      modifies block, feedbackValue
      ensures Valid()
      ensures Agrees(Step(dir, old(Pi()), CipherSettings(), old(Regs()), old(block[..]), count), r, block[..], Regs())
    {
      if feedbackValue == null {
        return Failure(ArgumentNull);
      }
      if dir == Encrypt {
        CfbEncrypt(block, count);
      } else {
        CfbDecrypt(block, count);
      }
      return Success(());
    }

    /** OFB on a live register: the block's first count bytes xored with the encrypted register, which is shifted into it. */
    method OfbKeystream(block: array<bv8>, count: int)
      requires Valid() && feedbackValue != null && cipher.expandedKey.NonNull? && block.Length == BlockSize && Owned(block)
      requires 1 <= count <= BlockSize
      modifies block, feedbackValue
      ensures Pi().NonNull?
      ensures block[..] == XorBytes(old(block[..count]), Pi().value.encrypt(old(feedbackValue[..]))[..count]) + old(block[count..])
      ensures feedbackValue[..] == old(feedbackValue[count..]) + Pi().value.encrypt(old(feedbackValue[..]))[..count]
    {
      var tempState := SaveTail(feedbackValue, count);
      EncryptBlock(feedbackValue);
      XorPrefix(block, feedbackValue[..], count);
      OfbShift(feedbackValue, tempState, count);
    }

    /**
     * OFB: the first count bytes are xored with the encrypted register, and that key stream is
     * shifted into the register whatever the direction. A dropped register throws
     * ArgumentNullException from the first Array.Copy.
     */
    method OfbStep(dir: TransformDirection, block: array<bv8>, count: int) returns (r: Result<()>)
      requires Valid() && mode == OFB && block.Length == BlockSize && Owned(block) && count == StepSize(CipherSettings())
      modifies block, feedbackValue
      ensures Valid()
      ensures Agrees(Step(dir, old(Pi()), CipherSettings(), old(Regs()), old(block[..]), count), r, block[..], Regs())
    {
      if feedbackValue == null {
        return Failure(ArgumentNull);
      }
      OfbKeystream(block, count);
      return Success(());
    }
    /**
     * IncrementCounter: the big-endian counter plus one, the carry rippling from the last byte
     * leftwards; a carry out of the first byte throws, and so does the read of the last byte of an
     * empty counter or of a dropped one.
     */
    method IncrementCounter() returns (r: Result<()>)
      requires Valid()
      modifies counter
      ensures counter == null ==> r == Failure(NullReference)
      ensures counter != null ==>
        match Increment(old(counter[..]))
        case Success(c) => r.Success? && counter[..] == c
        case Failure(e) => r == Failure(e)
    {
      if counter == null {
        return Failure(NullReference);
      }
      r := IncrementBytes(counter, counterSize);
    }

    /** The first CTR block lowers the flag and keeps the counter; every later one increments it. */
    method CtrAdvance() returns (r: Result<()>)
      requires Valid() && cipher.expandedKey.NonNull?
      modifies counter, this`initial
      ensures Valid()
      ensures match NextCounter(old(Regs()))
        case Success(c) => r.Success? && counter != null && counter[..] == c && !initial
        case Failure(e) => r == Failure(e)
    {
      if initial {
        initial := false;
        return Success(());
      }
      r := IncrementCounter();
    }

    /**
     * The CTR input block written into the register: the IV and then the counter over its last
     * bytes (Concatenate), the IV with the counter xored over its last bytes (Xor), or the counter.
     */
    method CounterBlockInto()
      requires Valid() && feedbackValue != null && iv != null && counter != null
      modifies feedbackValue
      ensures feedbackValue[..] == CounterBlock(nonceCombinationMode, iv[..], counter[..])
    {
      match nonceCombinationMode {
        case Concatenate =>
          Buffers.CopyTo(iv, feedbackValue, 0);
          Buffers.CopyTo(counter, feedbackValue, BlockSize - counterSize);
        case Add =>
          Buffers.CopyTo(counter, feedbackValue, 0);
        case Xor =>
          Buffers.CopyTo(iv, feedbackValue, 0);
          XorInto(feedbackValue, BlockSize - counterSize, counter[..], counterSize);
          assert counter[..][..counterSize] == counter[..];
      }
    }

    /**
     * CTR: the counter is advanced, combined with the IV into the register, and encrypted there;
     * the block is xored with the result. A dropped register, IV or counter is a null reference.
     */
    method CtrStep(dir: TransformDirection, block: array<bv8>, count: int) returns (r: Result<()>)
      requires Valid() && mode == CTR && block.Length == BlockSize && Owned(block) && count == StepSize(CipherSettings())
      modifies block, feedbackValue, counter, this`initial
      ensures Valid()
      ensures Agrees(Step(dir, old(Pi()), CipherSettings(), old(Regs()), old(block[..]), count), r, block[..], Regs())
    {
      if feedbackValue == null {
        return Failure(NullReference);
      }
      r := CtrAdvance();
      if r.Failure? {
        return;
      }
      CounterBlockInto();
      EncryptBlock(feedbackValue);
      XorBlock(block, feedbackValue[..]);
    }

    /** The switch of the loop body: one step of the transform's mode on the block. */
    method StepBlock(dir: TransformDirection, block: array<bv8>, count: int) returns (r: Result<()>)
      requires Valid() && block.Length == BlockSize && Owned(block) && count == StepSize(CipherSettings())
      modifies block, feedbackValue, counter, this`initial
      ensures Valid()
      ensures Agrees(Step(dir, old(Pi()), CipherSettings(), old(Regs()), old(block[..]), count), r, block[..], Regs())
    {
      match mode {
        case ECB => r := EcbStep(dir, block, count);
        case CBC => r := CbcStep(dir, block, count);
        case CFB => r := CfbStep(dir, block, count);
        case OFB => r := OfbStep(dir, block, count);
        case CTS => r := Failure(NotImplemented);
        case CTR => r := CtrStep(dir, block, count);
      }
    }
    /**
     * The first half of a loop pass: the block at the input offset is read (all that is left when
     * less than a block remains, zero-filled) into a new array and stepped there.
     */
    method ReadStep(dir: TransformDirection, buf: seq<bv8>, at: int) returns (r: Result<()>, block: array<bv8>)
      requires Valid()
      modifies feedbackValue, counter, this`initial
      ensures Valid() && fresh(block) && block.Length == BlockSize
      ensures ReadBlock(buf, at, StepSize(CipherSettings())).Failure? ==>
        r == Failure(ReadBlock(buf, at, StepSize(CipherSettings())).error)
      ensures ReadBlock(buf, at, StepSize(CipherSettings())).Success? ==>
        Agrees(Step(dir, old(Pi()), CipherSettings(), old(Regs()), ReadBlock(buf, at, StepSize(CipherSettings())).value,
                    StepSize(CipherSettings())), r, block[..], Regs())
    {
      var count := StepSize(CipherSettings());
      var ok;
      block, ok := ReadBlockInto(buf, at, count);
      if !ok {
        return Failure(ArgumentOutOfRange), block;
      }
      r := StepBlock(dir, block, count);
    }

    /**
     * One pass of the loop of EncryptData and DecryptData, when bytes remain: the block at the
     * input offset is read and stepped, and its first count bytes (fewer at the end of the output)
     * written at the output offset.
     */
    method RunPass(dir: TransformDirection, buf: seq<bv8>, at: int, output: array<bv8>, o: int, ghost remaining: int)
      returns (r: Result<()>, n: int)
      requires Valid() && Owned(output) && 0 < remaining <= output.Length - o
      modifies output, feedbackValue, counter, this`initial
      ensures Valid() && Pi() == old(Pi())
      ensures r.Failure? ==>
        Loop(dir, old(Pi()), CipherSettings(), old(Regs()), buf, at, o, output.Length, remaining, StepSize(CipherSettings())) ==
        Failure(r.error)
      ensures r.Success? ==> 1 <= n && 0 <= o && o + n <= output.Length
      ensures r.Success? ==>
        Loop(dir, old(Pi()), CipherSettings(), old(Regs()), buf, at, o, output.Length, remaining, StepSize(CipherSettings())) ==
        Prepend(output[o..o + n], Loop(dir, Pi(), CipherSettings(), Regs(), buf, at + n, o + n, output.Length, remaining - n,
                                       StepSize(CipherSettings())))
      ensures r.Success? ==> output[..] == old(output[..o]) + output[o..o + n] + old(output[o + n..])
    {
      var count := StepSize(CipherSettings());
      ghost var pi, regs0 := Pi(), Regs();
      var block;
      n := 0;
      r, block := ReadStep(dir, buf, at);
      if ReadBlock(buf, at, count).Failure? {
        LoopReadFails(dir, pi, CipherSettings(), regs0, buf, at, o, output.Length, remaining, count);
        return;
      }
      ghost var b0 := ReadBlock(buf, at, count).value;
      LoopPassFails(dir, pi, CipherSettings(), regs0, buf, at, o, output.Length, remaining, count, b0);
      if r.Failure? {
        return;
      }
      if o < 0 {
        return Failure(ArgumentOutOfRange), n;
      }
      n := WriteStepped(dir, buf, at, block, output, o, remaining, regs0, b0);
    }

    /** The end of a pass whose block b0, read at the input offset, stepped into block: its first bytes are written at o. */
    method WriteStepped(dir: TransformDirection, buf: seq<bv8>, at: int, block: array<bv8>, output: array<bv8>, o: int,
                        ghost remaining: int, ghost regs0: Registers, ghost b0: seq<bv8>)
      returns (n: int)
      requires Valid() && Owned(output) && block != output && 0 <= o && 0 < remaining <= output.Length - o
      requires WellFormed(Pi(), CipherSettings(), regs0)
      requires ReadBlock(buf, at, StepSize(CipherSettings())) == Success(b0)
      requires Step(dir, Pi(), CipherSettings(), regs0, b0, StepSize(CipherSettings())).Success?
      requires block[..] == Step(dir, Pi(), CipherSettings(), regs0, b0, StepSize(CipherSettings())).value.out
      requires Regs() == Step(dir, Pi(), CipherSettings(), regs0, b0, StepSize(CipherSettings())).value.regs
      modifies output
      ensures Valid() && Pi() == old(Pi()) && Regs() == old(Regs())
      ensures 1 <= n && o + n <= output.Length
      ensures Loop(dir, Pi(), CipherSettings(), regs0, buf, at, o, output.Length, remaining, StepSize(CipherSettings())) ==
        Prepend(output[o..o + n], Loop(dir, Pi(), CipherSettings(), Regs(), buf, at + n, o + n, output.Length, remaining - n,
                                       StepSize(CipherSettings())))
      ensures output[..] == old(output[..o]) + output[o..o + n] + old(output[o + n..])
    {
      var count := StepSize(CipherSettings());
      LoopUnfold(dir, Pi(), CipherSettings(), regs0, buf, at, o, output.Length, remaining, count, b0,
                 Step(dir, Pi(), CipherSettings(), regs0, b0, count).value);
      n := WritePass(block, output, o, count);
    }

    /**
     * Where the loop of EncryptData and DecryptData stands after it wrote written from o on into
     * output, which held before: the offsets have advanced by what was written, output holds it
     * spliced in, and the loop spec from the start is written followed by the rest of the loop
     * from the current registers.
     */
    ghost predicate Progress(dir: TransformDirection, buf: seq<bv8>, at: int, output: array<bv8>, o: int, total: int,
                             spec: Result<Chunked>, written: seq<bv8>, before: seq<bv8>, inputOffset: int, outputOffset: int)
      reads this, cipher, feedbackValue, iv, counter, output
    {
      Valid() && Owned(output) && total <= output.Length - o && |before| == output.Length &&
      inputOffset == at + |written| && outputOffset == o + |written| &&
      (written == [] || (0 <= o && o + |written| <= output.Length)) &&
      output[..] == Splice(before, o, written) &&
      spec == Prepend(written, Loop(dir, Pi(), CipherSettings(), Regs(), buf, inputOffset, outputOffset, output.Length,
                                    total - |written|, StepSize(CipherSettings())))
    }

    /** One pass of the loop, with its accounting: the progress advances by the bytes written. */
    method Advance(dir: TransformDirection, buf: seq<bv8>, at: int, output: array<bv8>, o: int, total: int,
                   ghost spec: Result<Chunked>, ghost written: seq<bv8>, ghost before: seq<bv8>, inputOffset: int,
                   outputOffset: int)
      returns (r: Result<()>, n: int, ghost written': seq<bv8>)
      requires Progress(dir, buf, at, output, o, total, spec, written, before, inputOffset, outputOffset)
      requires |written| < total
      modifies output, feedbackValue, counter, this`initial
      ensures Valid() && Pi() == old(Pi())
      ensures r.Failure? ==> spec == Failure(r.error)
      ensures r.Success? ==> n >= 1 && |written'| == |written| + n
      ensures r.Success? ==> Progress(dir, buf, at, output, o, total, spec, written', before, inputOffset + n, outputOffset + n)
    {
      ghost var rest := Loop(dir, Pi(), CipherSettings(), Regs(), buf, inputOffset, outputOffset, output.Length,
                             total - |written|, StepSize(CipherSettings()));
      r, n := RunPass(dir, buf, inputOffset, output, outputOffset, total - |written|);
      written' := written;
      if r.Failure? {
        return;
      }
      ghost var x := output[outputOffset..outputOffset + n];
      PrependChain(spec, written, rest, x,
                   Loop(dir, Pi(), CipherSettings(), Regs(), buf, inputOffset + n, outputOffset + n, output.Length,
                        total - |written| - n, StepSize(CipherSettings())));
      SpliceExtend(before, o, written, x, output[..]);
      written' := written + x;
      assert |written'| == |written| + n;
    }

    /**
     * The loop of EncryptData and DecryptData: passes until total bytes are written, each
     * advancing the input and the output offset by the bytes it wrote.
     */
    method RunLoop(dir: TransformDirection, buf: seq<bv8>, at: int, output: array<bv8>, o: int, total: int)
      returns (r: Result<()>)
      requires Valid() && Owned(output) && total <= output.Length - o
      modifies output, feedbackValue, counter, this`initial
      ensures Valid() && Pi() == old(Pi())
      ensures Filled(Loop(dir, old(Pi()), CipherSettings(), old(Regs()), buf, at, o, output.Length, total, StepSize(CipherSettings())),
                     r, output[..], old(output[..]), o, Regs())
    {
      ghost var before := output[..];
      ghost var spec := Loop(dir, Pi(), CipherSettings(), Regs(), buf, at, o, output.Length, total, StepSize(CipherSettings()));
      ghost var written: seq<bv8> := [];
      assert spec.Success? ==> [] + spec.value.written == spec.value.written;
      var byteCount, inputOffset, outputOffset := 0, at, o;
      while byteCount < total
        invariant Progress(dir, buf, at, output, o, total, spec, written, before, inputOffset, outputOffset)
        invariant Pi() == old(Pi()) && byteCount == |written|
        decreases total - byteCount
      {
        var n;
        r, n, written := Advance(dir, buf, at, output, o, total, spec, written, before, inputOffset, outputOffset);
        if r.Failure? {
          return;
        }
        byteCount, inputOffset, outputOffset := byteCount + n, inputOffset + n, outputOffset + n;
      }
      assert written + [] == written;
      return Success(());
    }

    /**
     * The part of EncryptData and DecryptData after the input is ready: the output allocated when
     * the caller passes none (or its room checked), the loop, and the cut of a stream mode's
     * output to count bytes where trimmable. The output reference comes back as outputBuffer.
     */
    method Deliver(dir: TransformDirection, buf: seq<bv8>, inputOffset: int, output: array?<bv8>, outputOffset: int,
                   total: int, count: int, trimmable: bool) returns (r: Result<int>, outputBuffer: array?<bv8>)
      requires Valid() && 0 <= count <= total && (output != null ==> Owned(output))
      modifies output, feedbackValue, counter, this`initial
      ensures Valid() && Pi() == old(Pi())
      ensures outputBuffer != output ==> fresh(outputBuffer)
      ensures Delivered(TransformSpec.Deliver(dir, old(Pi()), CipherSettings(), old(Regs()), buf, inputOffset,
                                              old(Contents(output)), outputOffset, total, count, trimmable),
                        r, Contents(output), Contents(outputBuffer), outputBuffer != output, Regs())
    {
      if output == null {
        var target := new bv8[total](_ => 0);
        assert target[..] == Buffers.Zeros(total);
        r, outputBuffer := Fill(dir, buf, inputOffset, target, 0, total, count, trimmable);
      } else if output.Length - outputOffset < total {
        return Failure(Cryptographic), output;
      } else {
        r, outputBuffer := Fill(dir, buf, inputOffset, output, outputOffset, total, count, trimmable);
      }
    }

    /** The loop into target from o on, and the cut of a stream mode's output to count bytes where trimmable. */
    method Fill(dir: TransformDirection, buf: seq<bv8>, inputOffset: int, target: array<bv8>, o: int, total: int,
                count: int, trimmable: bool) returns (r: Result<int>, outputBuffer: array<bv8>)
      requires Valid() && 0 <= count <= total && Owned(target) && total <= target.Length - o
      modifies target, feedbackValue, counter, this`initial
      ensures Valid() && Pi() == old(Pi())
      ensures outputBuffer != target ==> fresh(outputBuffer)
      ensures Filled(Loop(dir, old(Pi()), CipherSettings(), old(Regs()), buf, inputOffset, o, target.Length, total,
                          StepSize(CipherSettings())), if r.Success? then Success(()) else Failure(r.error), target[..],
                     old(target[..]), o, Regs())
      ensures r.Success? ==> r.value == count
      ensures r.Success? ==> var trim := trimmable && IsStreamMode(mode) && target.Length > count;
                             outputBuffer[..] == (if trim then target[..count] else target[..]) && (outputBuffer != target <==> trim)
    {
      var loop := RunLoop(dir, buf, inputOffset, target, o, total);
      if loop.Failure? {
        return Failure(loop.error), target;
      }
      var trim := trimmable && IsStreamMode(mode) && target.Length > count;
      outputBuffer := Trimmed(target, count, trim);
      return Success(count), outputBuffer;
    }

    /**
     * EncryptData: the length check, the padding of a final call, and the loop over count plus
     * padding bytes; only without padding is a stream mode's output cut to count bytes.
     */
    method EncryptData(input: seq<bv8>, inputOffset: int, inputCount: int, output: array?<bv8>, outputOffset: int,
                       final: bool, random: seq<bv8>) returns (r: Result<int>, outputBuffer: array?<bv8>)
      requires Valid() && 0 <= inputOffset && 0 <= inputCount && |random| == InputBlockSize
      requires output != null ==> Owned(output)
      modifies output, feedbackValue, counter, this`initial
      ensures Valid() && Pi() == old(Pi())
      ensures outputBuffer != output ==> fresh(outputBuffer)
      ensures Delivered(TransformSpec.EncryptData(old(Pi()), CipherSettings(), old(Regs()), paddingMode, input, inputOffset,
                                                  inputCount, old(Contents(output)), outputOffset, final, random),
                        r, Contents(output), Contents(outputBuffer), outputBuffer != output, Regs())
    {
      if |input| < inputOffset + inputCount {
        return Failure(Cryptographic), output;
      }
      var size, buf, at := PadInput(paddingMode, mode, input, inputOffset, inputCount, final, random);
      if size.Failure? {
        return Failure(size.error), output;
      }
      r, outputBuffer := Deliver(Encrypt, buf, at, output, outputOffset, inputCount + size.value, inputCount,
                                 paddingMode == NoPadding);
    }

    /**
     * DecryptData: the length check and the loop over count bytes, a stream mode's output cut to
     * count bytes; a final call, into its own output, then checks and strips the padding.
     */
    method DecryptData(input: seq<bv8>, inputOffset: int, inputCount: int, output: array?<bv8>, outputOffset: int,
                       final: bool) returns (r: Result<int>, outputBuffer: array?<bv8>)
      requires Valid() && 0 <= inputOffset && 0 <= inputCount && (final ==> output == null)
      requires output != null ==> Owned(output)
      modifies output, feedbackValue, counter, this`initial
      ensures Valid() && Pi() == old(Pi())
      ensures outputBuffer != output ==> fresh(outputBuffer)
      ensures Delivered(TransformSpec.DecryptData(old(Pi()), CipherSettings(), old(Regs()), paddingMode, input, inputOffset,
                                                  inputCount, old(Contents(output)), outputOffset, final),
                        r, Contents(output), Contents(outputBuffer), outputBuffer != output, Regs())
    {
      if |input| < inputOffset + inputCount {
        return Failure(Cryptographic), output;
      }
      r, outputBuffer := Deliver(Decrypt, input, inputOffset, output, outputOffset, inputCount, inputCount, true);
      if r.Failure? || !final {
        return;
      }
      assert outputBuffer != null;
      var result;
      r, result := Depadded(paddingMode, outputBuffer);
      outputBuffer := result;
    }

    /**
     * TransformBlock: the arguments are checked in the source's order; encryption, and decryption
     * without a padding to strip, go straight to EncryptData or DecryptData, whose returned
     * output reference is dropped.
     */
    method TransformBlock(input: array?<bv8>, inputOffset: int, inputCount: int, output: array?<bv8>, outputOffset: int)
      returns (r: Result<int>)
      requires Valid() && Apart(input, output)
      requires input != null ==> Owned(input)
      requires output != null ==> Owned(output)
      modifies output, feedbackValue, counter, this`initial, this`depadBuffer, depadBuffer
      ensures Valid()
      ensures match TransformSpec.TransformBlock(Configuration(), old(State()), old(Contents(input)), inputOffset, inputCount,
                                                 old(Contents(output)), outputOffset)
              case Success(t) => r == Success(t.count) && Contents(output) == NonNull(t.output) && State() == t.state
              case Failure(e) => r == Failure(e)
    {
      if input == null || output == null {
        return Failure(ArgumentNull);
      }
      if inputOffset < 0 {
        return Failure(ArgumentOutOfRange);
      }
      if inputCount <= 0 || inputCount % InputBlockSize != 0 || inputCount > input.Length {
        return Failure(Argument);
      }
      if input.Length - inputCount < inputOffset {
        return Failure(Argument);
      }
      var outputBuffer;
      if transformDirection == Encrypt {
        r, outputBuffer := EncryptData(input[..], inputOffset, inputCount, output, outputOffset, false,
                                       Buffers.Zeros(InputBlockSize));
      } else if !Strips(paddingMode) {
        r, outputBuffer := DecryptData(input[..], inputOffset, inputCount, output, outputOffset, false);
      } else {
        r := HeldBack(input[..], inputOffset, inputCount, output, outputOffset);
      }
    }

    /**
     * The decryption of TransformBlock under a padding to strip: the last input block is held back
     * in the depad buffer. The first call allocates the buffer, saves the block and decrypts the
     * blocks before it; a later call first decrypts the block held so far at the output offset,
     * saves the new block, and decrypts the rest after it, into the output reference the first
     * decryption handed back.
     */
    method HeldBack(input: seq<bv8>, inputOffset: int, inputCount: int, output: array<bv8>, outputOffset: int)
      returns (r: Result<int>)
      requires Valid() && Owned(output) && transformDirection == Decrypt && Strips(paddingMode)
      requires 0 <= inputOffset && 0 < inputCount && inputCount % InputBlockSize == 0 && inputOffset + inputCount <= |input|
      modifies output, feedbackValue, counter, this`initial, this`depadBuffer, depadBuffer
      ensures Valid()
      ensures match TransformSpec.TransformBlock(Configuration(), old(State()), NonNull(input), inputOffset, inputCount,
                                                 NonNull(old(output[..])), outputOffset)
              case Success(t) => r == Success(t.count) && output[..] == t.output && State() == t.state
              case Failure(e) => r == Failure(e)
    {
      ghost var st, out0 := State(), output[..];
      if depadBuffer == null {
        r := HeldFirst(input, inputOffset, inputCount, output, outputOffset);
        TransformSpec.HeldFirstCall(Configuration(), st, input, inputOffset, inputCount, out0, outputOffset);
      } else {
        r := HeldNext(input, inputOffset, inputCount, output, outputOffset);
        TransformSpec.HeldNextCall(Configuration(), st, input, inputOffset, inputCount, out0, outputOffset);
      }
    }

    /** The first call: the depad buffer is allocated and saves the last block, and the blocks before it are decrypted. */
    method HeldFirst(input: seq<bv8>, inputOffset: int, inputCount: int, output: array<bv8>, outputOffset: int)
      returns (r: Result<int>)
      requires Valid() && Owned(output) && depadBuffer == null
      requires 0 <= inputOffset && InputBlockSize <= inputCount && inputOffset + inputCount <= |input|
      modifies output, feedbackValue, counter, this`initial, this`depadBuffer
      ensures Valid() && Pi() == old(Pi())
      ensures match TransformSpec.DecryptData(old(Pi()), CipherSettings(), old(Regs()), paddingMode, input, inputOffset,
                                              inputCount - InputBlockSize, NonNull(old(output[..])), outputOffset, false)
              case Success(w) =>
                r == Success(w.count) && output[..] == w.target && Regs() == w.regs && depadBuffer != null &&
                depadBuffer[..] == input[inputOffset + inputCount - InputBlockSize..inputOffset + inputCount]
              case Failure(e) => r == Failure(e)
    {
      var num := inputCount - InputBlockSize;
      var held := new bv8[InputBlockSize](_ => 0);
      Buffers.CopyIn(input, inputOffset + num, held, 0, InputBlockSize);
      assert held[..] == input[inputOffset + num..inputOffset + inputCount];
      depadBuffer := held;
      var outputBuffer;
      r, outputBuffer := DecryptData(input, inputOffset, num, output, outputOffset, false);
    }

    /**
     * A later call: the block held so far is decrypted at the output offset, the new last block
     * is saved, and the blocks before it are decrypted after the first, into the output reference
     * the first decryption handed back.
     */
    method HeldNext(input: seq<bv8>, inputOffset: int, inputCount: int, output: array<bv8>, outputOffset: int)
      returns (r: Result<int>)
      requires Valid() && Owned(output) && depadBuffer != null
      requires 0 <= inputOffset && InputBlockSize <= inputCount && inputOffset + inputCount <= |input|
      modifies output, feedbackValue, counter, this`initial, depadBuffer
      ensures Valid() && Pi() == old(Pi()) && depadBuffer == old(depadBuffer)
      ensures match TransformSpec.DecryptData(old(Pi()), CipherSettings(), old(Regs()), paddingMode, old(depadBuffer[..]),
                                              0, InputBlockSize, NonNull(old(output[..])), outputOffset, false)
              case Failure(e) => r == Failure(e)
              case Success(w1) =>
                match TransformSpec.DecryptData(old(Pi()), CipherSettings(), w1.regs, paddingMode, input, inputOffset,
                                                inputCount - InputBlockSize, NonNull(w1.buffer), outputOffset + InputBlockSize, false)
                case Failure(e) => r == Failure(e)
                case Success(w2) =>
                  r == Success(InputBlockSize + w2.count) && output[..] == (if w1.moved then w1.target else w2.target) &&
                  Regs() == w2.regs &&
                  depadBuffer[..] == input[inputOffset + inputCount - InputBlockSize..inputOffset + inputCount]
    {
      ghost var spec1 := TransformSpec.DecryptData(Pi(), CipherSettings(), Regs(), paddingMode, depadBuffer[..],
                                                   0, InputBlockSize, NonNull(output[..]), outputOffset, false);
      var r1, out1 := HeldFlush(input, inputOffset, inputCount, output, outputOffset);
      if r1.Failure? {
        assert spec1 == Failure(r1.error);
        return Failure(r1.error);
      }
      ghost var w1 := spec1.value;
      ghost var held := depadBuffer[..];
      assert held == input[inputOffset + inputCount - InputBlockSize..inputOffset + inputCount];
      r := HeldRest(input, inputOffset, inputCount - InputBlockSize, output, out1, outputOffset + InputBlockSize, w1);
      assert depadBuffer[..] == held;
    }

    /** The first decryption of a later call: the block held so far, at the output offset; then the new block is saved. */
    method HeldFlush(input: seq<bv8>, inputOffset: int, inputCount: int, output: array<bv8>, outputOffset: int)
      returns (r: Result<int>, out1: array?<bv8>)
      requires Valid() && Owned(output) && depadBuffer != null
      requires 0 <= inputOffset && InputBlockSize <= inputCount && inputOffset + inputCount <= |input|
      modifies output, feedbackValue, counter, this`initial, depadBuffer
      ensures Valid() && Pi() == old(Pi()) && depadBuffer == old(depadBuffer)
      ensures out1 != output ==> fresh(out1)
      ensures Delivered(TransformSpec.DecryptData(old(Pi()), CipherSettings(), old(Regs()), paddingMode, old(depadBuffer[..]),
                                                  0, InputBlockSize, NonNull(old(output[..])), outputOffset, false),
                        r, Contents(output), Contents(out1), out1 != output, Regs())
      ensures r.Success? ==> depadBuffer[..] == input[inputOffset + inputCount - InputBlockSize..inputOffset + inputCount]
    {
      var num := inputCount - InputBlockSize;
      r, out1 := DecryptData(depadBuffer[..], 0, InputBlockSize, output, outputOffset, false);
      if r.Failure? {
        return;
      }
      Buffers.CopyIn(input, inputOffset + num, depadBuffer, 0, InputBlockSize);
      assert depadBuffer[..] == input[inputOffset + num..inputOffset + inputCount];
    }

    /**
     * The second decryption of a later call, into out1, the output reference the first handed
     * back; the caller's output array sees it only when out1 is that array.
     */
    method HeldRest(input: seq<bv8>, inputOffset: int, num: int, output: array<bv8>, out1: array?<bv8>, o: int,
                    ghost w1: Written) returns (r: Result<int>)
      requires Valid() && Owned(output) && 0 <= inputOffset && 0 <= num && inputOffset + num <= |input|
      requires WellFormed(Pi(), CipherSettings(), w1.regs) && Regs() == w1.regs && out1 != null && out1[..] == w1.buffer
      requires output[..] == w1.target && (out1 != output <==> w1.moved) && Owned(out1)
      modifies out1, feedbackValue, counter, this`initial
      ensures Valid() && Pi() == old(Pi())
      ensures depadBuffer != null ==> depadBuffer[..] == old(depadBuffer[..])
      ensures match TransformSpec.DecryptData(Pi(), CipherSettings(), w1.regs, paddingMode, input, inputOffset, num,
                                              NonNull(w1.buffer), o, false)
              case Failure(e) => r == Failure(e)
              case Success(w2) =>
                r == Success(InputBlockSize + w2.count) && Regs() == w2.regs &&
                output[..] == (if w1.moved then w1.target else w2.target)
    {
      var out2;
      r, out2 := DecryptData(input, inputOffset, num, out1, o, false);
      if r.Success? {
        r := Success(InputBlockSize + r.value);
      }
    }

    /**
     * TransformFinalBlock: the arguments are checked; encryption pads and encrypts into a new
     * output; decryption, which in a block mode needs whole blocks, decrypts the held-back block
     * (if any) and the input together into a new output and strips the padding. Both end with
     * Reset; a call that throws does not reset.
     */
    method TransformFinalBlock(input: array?<bv8>, inputOffset: int, inputCount: int, random: seq<bv8>)
      returns (r: Result<array<bv8>>)
      requires Valid() && |random| == InputBlockSize
      modifies this, cipher, cipher.key, feedbackValue, iv, counter, depadBuffer
      ensures Valid()
      ensures r.Success? ==> fresh(r.value)
      ensures match TransformSpec.TransformFinalBlock(Configuration(), old(State()), old(Contents(input)), inputOffset,
                                                      inputCount, random)
              case Success(f) => r.Success? && r.value[..] == f.output && State() == f.state
              case Failure(e) => r == Failure(e)
    {
      if input == null {
        return Failure(ArgumentNull);
      }
      if inputOffset < 0 {
        return Failure(ArgumentOutOfRange);
      }
      if inputCount < 0 || inputCount > input.Length {
        return Failure(Argument);
      }
      if input.Length - inputCount < inputOffset {
        return Failure(Argument);
      }
      var result, outputBuffer := FinalData(input[..], inputOffset, inputCount, random);
      if result.Failure? {
        return Failure(result.error);
      }
      Reset();
      return Success(outputBuffer);
    }

    /** The output of TransformFinalBlock once its arguments are checked, before the Reset. */
    method FinalData(input: seq<bv8>, inputOffset: int, inputCount: int, random: seq<bv8>)
      returns (r: Result<int>, outputBuffer: array<bv8>)
      requires Valid() && 0 <= inputOffset && 0 <= inputCount && inputOffset + inputCount <= |input|
      requires |random| == InputBlockSize
      modifies feedbackValue, counter, this`initial
      ensures Valid() && Pi() == old(Pi())
      ensures r.Success? ==> fresh(outputBuffer)
      ensures match FinalOutput(Configuration(), old(State()), input, inputOffset, inputCount, random)
              case Success(w) => r.Success? && outputBuffer[..] == w.buffer && Regs() == w.regs
              case Failure(e) => r == Failure(e)
    {
      var buffer: array?<bv8>;
      outputBuffer := new bv8[0];
      if transformDirection == Encrypt {
        r, buffer := EncryptData(input, inputOffset, inputCount, null, 0, true, random);
      } else if !IsStreamMode(mode) && inputCount % InputBlockSize != 0 {
        return Failure(Cryptographic), outputBuffer;
      } else {
        r, buffer := FinalDecrypt(input, inputOffset, inputCount);
      }
      if r.Success? {
        outputBuffer := buffer;
      }
    }

    /** The decryption of TransformFinalBlock: with a block held back, of that block followed by the input bytes. */
    method FinalDecrypt(input: seq<bv8>, inputOffset: int, inputCount: int) returns (r: Result<int>, outputBuffer: array?<bv8>)
      requires Valid() && 0 <= inputOffset && 0 <= inputCount && inputOffset + inputCount <= |input|
      modifies feedbackValue, counter, this`initial
      ensures Valid() && Pi() == old(Pi())
      ensures r.Success? ==> outputBuffer != null && fresh(outputBuffer)
      ensures var spec := if old(depadBuffer) == null
                          then TransformSpec.DecryptData(old(Pi()), CipherSettings(), old(Regs()), paddingMode, input,
                                                         inputOffset, inputCount, Null, 0, true)
                          else var data := old(depadBuffer[..]) + input[inputOffset..inputOffset + inputCount];
                               TransformSpec.DecryptData(old(Pi()), CipherSettings(), old(Regs()), paddingMode, data, 0,
                                                         |data|, Null, 0, true);
              match spec
              case Success(w) => r.Success? && Contents(outputBuffer) == NonNull(w.buffer) && Regs() == w.regs
              case Failure(e) => r == Failure(e)
    {
      if depadBuffer == null {
        r, outputBuffer := DecryptData(input, inputOffset, inputCount, null, 0, true);
      } else {
        var dst := new bv8[depadBuffer.Length + inputCount](_ => 0);
        Buffers.Copy(depadBuffer, 0, dst, 0, depadBuffer.Length);
        Buffers.CopyIn(input, inputOffset, dst, depadBuffer.Length, inputCount);
        assert dst[..] == old(depadBuffer[..]) + input[inputOffset..inputOffset + inputCount];
        r, outputBuffer := DecryptData(dst[..], 0, dst.Length, null, 0, true);
      }
    }

    /**
     * Reset: the Serpent object zeroes and drops the key and drops the expanded key; then the
     * depad buffer, the register, the IV and the counter are zeroed and dropped, and the counter
     * size becomes 0. The first-block flag is left as it is.
     */
    method Reset()
      requires Valid()
      modifies this, cipher, cipher.key, feedbackValue, iv, counter, depadBuffer
      ensures Valid() && State() == ResetState(old(State())) && counterSize == 0
      ensures cipher.key == null && (old(cipher.key) != null ==> old(cipher.key)[..] == Buffers.Zeros(old(cipher.key).Length))
      ensures old(depadBuffer) != null ==> old(depadBuffer)[..] == Buffers.Zeros(old(depadBuffer).Length)
      ensures old(feedbackValue) != null ==> old(feedbackValue)[..] == Buffers.Zeros(old(feedbackValue).Length)
      ensures old(iv) != null ==> old(iv)[..] == Buffers.Zeros(old(iv).Length)
      ensures old(counter) != null ==> old(counter)[..] == Buffers.Zeros(old(counter).Length)
    {
      cipher.Reset();
      if depadBuffer != null {
        Buffers.Clear(depadBuffer);
        depadBuffer := null;
      }
      if feedbackValue != null {
        Buffers.Clear(feedbackValue);
        feedbackValue := null;
      }
      if iv != null {
        Buffers.Clear(iv);
        iv := null;
      }
      if counter != null {
        Buffers.Clear(counter);
        counter := null;
      }
      counterSize := 0;
    }
  }
}
