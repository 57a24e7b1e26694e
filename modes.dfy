/**
 * The chaining modes of Crypto/ManagedTransformBase.cs as functions on byte sequences: one step
 * of each mode on one block (the switch of EncryptData, lines 410-466, and of DecryptData, lines
 * 589-646), the CTR counter and its ripple increment (lines 486-503), and the loop of both
 * methods that feeds the input through the steps chunk by chunk (lines 395-474 and 574-654).
 * The block permutation is a parameter: a pair of functions on 16-byte blocks, the second
 * undoing the first, that Reset may have dropped (Serpent under its expanded key, in the engine).
 */
module CipherModes {
  import opened Outcomes
  import opened Enums
  import opened Buffers
  import Utils

  /** BlockSizeBytes: Serpent's block is 128 bits. */
  const BlockSize := 16

  /** A block permutation: EncryptBlock and DecryptBlock as functions of a 16-byte block. */
  datatype Permutation = Permutation(encrypt: seq<bv8> -> seq<bv8>, decrypt: seq<bv8> -> seq<bv8>)

  /** Both directions map blocks to blocks, and decryption undoes encryption. */
  ghost predicate Invertible(pi: Permutation)
  {
    (forall b :: |b| == BlockSize ==> |pi.encrypt(b)| == BlockSize) &&
    (forall b :: |b| == BlockSize ==> |pi.decrypt(b)| == BlockSize) &&
    (forall b {:trigger pi.encrypt(b)} :: |b| == BlockSize ==> pi.decrypt(pi.encrypt(b)) == b)
  }

  /** The settings the transform reads from the algorithm when it is constructed. */
  datatype Settings = Settings(mode: ExtendedCipherMode, nonce: NonceCombinationMode, registerShiftSize: int)

  /**
   * A register shift size the CFB step can use: 0 (read as 1) up to a whole block. The other
   * modes never read the shift size, so any value will do there.
   */
  predicate ValidSettings(s: Settings)
  {
    s.mode == CFB ==> 0 <= s.registerShiftSize <= BlockSize
  }

  /** The bytes one step consumes (count): the register shift size in CFB, 0 read as 1; a block otherwise. */
  function StepSize(s: Settings): (r: int)
    requires ValidSettings(s)
    ensures 1 <= r <= BlockSize
  {
    if s.mode == CFB then (if s.registerShiftSize == 0 then 1 else s.registerShiftSize) else BlockSize
  }

  /** The feedback register, the IV, the CTR counter and the first-block flag, as values. */
  datatype Registers = Registers(feedback: Nullable<seq<bv8>>, iv: Nullable<seq<bv8>>, counter: Nullable<seq<bv8>>, initial: bool)

  /** The counter lengths the constructor creates: after the IV for Concatenate, a whole block otherwise. */
  predicate CounterFits(nonce: NonceCombinationMode, n: int)
  {
    if nonce == Concatenate then 0 <= n <= BlockSize else n == BlockSize
  }

  /** Between construction and Reset: a key schedule, a feedback register and an IV of one block each. */
  ghost predicate Live(pi: Nullable<Permutation>, s: Settings, regs: Registers)
  {
    pi.NonNull? && Invertible(pi.value) &&
    regs.feedback.NonNull? && |regs.feedback.value| == BlockSize &&
    regs.iv.NonNull? && |regs.iv.value| == BlockSize &&
    (regs.counter.Null? ==> !regs.initial) &&
    (regs.counter.NonNull? ==> CounterFits(s.nonce, |regs.counter.value|))
  }

  /** After Reset: the key schedule, the feedback register, the IV and the counter are all dropped. */
  ghost predicate Cleared(pi: Nullable<Permutation>, regs: Registers)
  {
    pi.Null? && regs.feedback.Null? && regs.iv.Null? && regs.counter.Null?
  }

  ghost predicate WellFormed(pi: Nullable<Permutation>, s: Settings, regs: Registers)
  {
    ValidSettings(s) && (Live(pi, s, regs) || Cleared(pi, regs))
  }

  /** Bytewise exclusive or of two sequences of one length. */
  function XorBytes(a: seq<bv8>, b: seq<bv8>): (c: seq<bv8>)
    requires |a| == |b|
    ensures |c| == |a| && forall k :: 0 <= k < |a| ==> c[k] == a[k] ^ b[k]
  {
    seq(|a|, k requires 0 <= k < |a| => a[k] ^ b[k])
  }

  // ---- the CTR counter ----

  /** A counter read as a big-endian number. */
  function BigEndianValue(c: seq<bv8>): nat
  {
    if c == [] then 0 else BigEndianValue(c[..|c| - 1]) * 256 + c[|c| - 1] as nat
  }

  function Pow256(n: nat): nat
  {
    if n == 0 then 1 else 256 * Pow256(n - 1)
  }

  /** A counter of n bytes holds a number below 256^n. */
  lemma {:induction false} BigEndianValueBound(c: seq<bv8>)
    ensures BigEndianValue(c) < Pow256(|c|)
  {
    if c != [] {
      BigEndianValueBound(c[..|c| - 1]);
    }
  }

  /**
   * The ripple of IncrementCounter: a last byte below 0xFF is incremented; a last byte 0xFF
   * becomes 0 and the carry moves left; a carry out of the first byte throws.
   */
  function Ripple(c: seq<bv8>): (r: Result<seq<bv8>>)
    requires |c| >= 1
    ensures r.Success? ==> |r.value| == |c|
    decreases |c|
  {
    var last := c[|c| - 1];
    if last < 255 then Success(c[..|c| - 1] + [last + 1])
    else if |c| == 1 then Failure(Cryptographic)
    else match Ripple(c[..|c| - 1])
      case Success(p) => Success(p + [0])
      case Failure(e) => Failure(e)
  }

  /** IncrementCounter: the first read is of the last byte, so an empty counter is out of range. */
  function Increment(c: seq<bv8>): (r: Result<seq<bv8>>)
    ensures r.Success? ==> |r.value| == |c|
  {
    if |c| == 0 then Failure(IndexOutOfRange) else Ripple(c)
  }

  /** The value of a counter with one more byte at the end. */
  lemma BigEndianValueSnoc(p: seq<bv8>, x: bv8)
    ensures BigEndianValue(p + [x]) == BigEndianValue(p) * 256 + x as nat
  {
    assert (p + [x])[..|p|] == p;
  }

  /** Adding one to a byte below 0xFF adds one to its value. */
  lemma ByteSuccessor(x: bv8)
    requires x < 255
    ensures (x + 1) as nat == x as nat + 1
  {
  }

  /** A byte that is not below 0xFF has the value 255. */
  lemma ByteMaximum(x: bv8)
    requires !(x < 255)
    ensures x as nat == 255
  {
  }

  /** Without a carry, the ripple adds one to the value. */
  lemma RippleNoCarry(p: seq<bv8>, last: bv8)
    requires last < 255
    ensures Ripple(p + [last]) == Success(p + [last + 1])
    ensures BigEndianValue(p + [last + 1]) == BigEndianValue(p + [last]) + 1
    ensures BigEndianValue(p + [last]) + 1 < Pow256(|p| + 1)
  {
    assert (p + [last])[..|p|] == p;
    BigEndianValueSnoc(p, last);
    BigEndianValueSnoc(p, last + 1);
    BigEndianValueBound(p);
    ByteSuccessor(last);
  }

  /**
   * The ripple adds one to the counter's big-endian value, and throws exactly when that would not
   * fit in the counter's bytes (every byte is 0xFF), instead of wrapping around.
   */
  lemma {:induction false} RippleValue(c: seq<bv8>)
    requires |c| >= 1
    ensures Ripple(c).Success? <==> BigEndianValue(c) + 1 < Pow256(|c|)
    ensures Ripple(c).Success? ==> BigEndianValue(Ripple(c).value) == BigEndianValue(c) + 1
    ensures Ripple(c).Failure? ==> Ripple(c).error == Cryptographic
    decreases |c|
  {
    var p, last := c[..|c| - 1], c[|c| - 1];
    assert c == p + [last];
    if last < 255 {
      RippleNoCarry(p, last);
    } else {
      ByteMaximum(last);
      BigEndianValueSnoc(p, last);
      if |c| > 1 {
        RippleValue(p);
        if Ripple(p).Success? {
          BigEndianValueSnoc(Ripple(p).value, 0);
        } else {
          BigEndianValueBound(p);
        }
      }
    }
  }

  /** Increment succeeds exactly on a non-empty counter below its maximum, and then adds one. */
  lemma IncrementValue(c: seq<bv8>)
    ensures Increment(c).Success? <==> |c| >= 1 && BigEndianValue(c) + 1 < Pow256(|c|)
    ensures Increment(c).Success? ==> BigEndianValue(Increment(c).value) == BigEndianValue(c) + 1
    ensures Increment(c).Failure? ==> Increment(c).error == (if |c| == 0 then IndexOutOfRange else Cryptographic)
  {
    if |c| >= 1 {
      RippleValue(c);
    }
  }

  /**
   * The ripple as IncrementCounter runs it from the last byte leftwards: the bytes after index are
   * 0xFF and become zero, and the byte at index, below 0xFF, is incremented.
   */
  lemma {:induction false} RippleCarry(c: seq<bv8>, index: int)
    requires 0 <= index < |c| && c[index] < 255
    requires forall k :: index < k < |c| ==> c[k] == 255
    ensures Ripple(c) == Success(c[..index] + [c[index] + 1] + Buffers.Zeros(|c| - index - 1))
    decreases |c|
  {
    var p := c[..|c| - 1];
    var head := c[..index] + [c[index] + 1];
    if index == |c| - 1 {
      assert head + Buffers.Zeros(|c| - index - 1) == p + [c[|c| - 1] + 1];
    } else {
      assert p[index] == c[index] && p[..index] == c[..index];
      RippleCarry(p, index);
      RippleCarryOut(c);
      ZerosSnoc(head, |p| - index - 1);
    }
  }

  /** A last byte 0xFF becomes zero after the ripple of the bytes before it. */
  lemma RippleCarryOut(c: seq<bv8>)
    requires |c| > 1 && c[|c| - 1] == 255 && Ripple(c[..|c| - 1]).Success?
    ensures Ripple(c) == Success(Ripple(c[..|c| - 1]).value + [0])
  {
  }

  /** Zeros followed by one more zero. */
  lemma ZerosSnoc(head: seq<bv8>, n: nat)
    ensures head + Buffers.Zeros(n) + [0] == head + Buffers.Zeros(n + 1)
  {
    assert Buffers.Zeros(n) + [0] == Buffers.Zeros(n + 1);
  }

  /** A counter of 0xFF bytes only overflows: the ripple throws. */
  lemma {:induction false} RippleOverflow(c: seq<bv8>)
    requires |c| >= 1 && forall k :: 0 <= k < |c| ==> c[k] == 255
    ensures Ripple(c) == Failure(Cryptographic)
    decreases |c|
  {
    assert c[|c| - 1] == 255;
    if |c| > 1 {
      RippleOverflow(c[..|c| - 1]);
    }
  }

  /**
   * The block the CTR step encrypts: the counter after the IV's first bytes (Concatenate), the
   * counter xored over the IV's last bytes (Xor), or the counter itself (Add, a whole block).
   */
  function CounterBlock(nonce: NonceCombinationMode, iv: seq<bv8>, counter: seq<bv8>): (b: seq<bv8>)
    requires |iv| == BlockSize && CounterFits(nonce, |counter|)
    ensures |b| == BlockSize
  {
    var at := BlockSize - |counter|;
    match nonce
    case Concatenate => iv[..at] + counter
    case Xor => iv[..at] + XorBytes(iv[at..], counter)
    case Add => counter
  }

  /** Under one IV, distinct counters give distinct CTR input blocks, in every combination rule. */
  lemma CounterBlockInjective(nonce: NonceCombinationMode, iv: seq<bv8>, c1: seq<bv8>, c2: seq<bv8>)
    requires |iv| == BlockSize && |c1| == |c2| && CounterFits(nonce, |c1|)
    requires CounterBlock(nonce, iv, c1) == CounterBlock(nonce, iv, c2)
    ensures c1 == c2
  {
    var at := BlockSize - |c1|;
    if nonce == Xor {
      XorCounterInjective(iv[..at], iv[at..], c1, c2);
    } else if nonce == Concatenate {
      assert c1 == CounterBlock(nonce, iv, c1)[at..];
      assert c2 == CounterBlock(nonce, iv, c2)[at..];
    }
  }

  /** The Xor rule: a prefix followed by the counter xored over a tail keeps counters apart. */
  lemma XorCounterInjective(head: seq<bv8>, tail: seq<bv8>, c1: seq<bv8>, c2: seq<bv8>)
    requires |tail| == |c1| == |c2|
    requires head + XorBytes(tail, c1) == head + XorBytes(tail, c2)
    ensures c1 == c2
  {
    var x1, x2 := XorBytes(tail, c1), XorBytes(tail, c2);
    assert x1 == (head + x1)[|head|..];
    assert x2 == (head + x2)[|head|..];
    forall k | 0 <= k < |c1|
      ensures c1[k] == c2[k]
    {
      XorBytesCancel(tail, c1, c2, k);
    }
  }

  /** Where two xors over one tail agree, the counters agree. */
  lemma XorBytesCancel(tail: seq<bv8>, c1: seq<bv8>, c2: seq<bv8>, k: int)
    requires |tail| == |c1| == |c2| && 0 <= k < |c1|
    requires XorBytes(tail, c1)[k] == XorBytes(tail, c2)[k]
    ensures c1[k] == c2[k]
  {
    var a, x, y := tail[k], c1[k], c2[k];
    assert (a ^ x) ^ a == x;
    assert (a ^ y) ^ a == y;
  }

  // ---- one step of a mode ----

  /** A step's output block and the registers after it. */
  datatype Stepped = Stepped(out: seq<bv8>, regs: Registers)

  /**
   * The exception a step throws once Reset has dropped the registers and the key schedule: CTS
   * always throws NotImplementedException; CFB and OFB first hand the null register to Array.Copy;
   * the other modes first index a null array.
   */
  function ClearedError(mode: ExtendedCipherMode): Exception
  {
    match mode
    case CTS => NotImplemented
    case CFB => ArgumentNull
    case OFB => ArgumentNull
    case _ => NullReference
  }

  /**
   * The counter a CTR step uses: as it is for the first block (the flag is then lowered),
   * incremented otherwise; a missing counter is a null reference.
   */
  function NextCounter(regs: Registers): (r: Result<seq<bv8>>)
    requires regs.initial ==> regs.counter.NonNull?
    ensures r.Success? ==> regs.counter.NonNull? && |r.value| == |regs.counter.value|
  {
    if regs.initial then Success(regs.counter.value)
    else if regs.counter.Null? then Failure(NullReference)
    else Increment(regs.counter.value)
  }

  /** The CTR step: the counter, incremented unless this is the first block, combined and encrypted. */
  function CounterStep(p: Permutation, s: Settings, regs: Registers, block: seq<bv8>): (r: Result<Stepped>)
    requires Live(NonNull(p), s, regs) && |block| == BlockSize
    ensures r.Success? ==> |r.value.out| == BlockSize && Live(NonNull(p), s, r.value.regs)
  {
    match NextCounter(regs)
    case Failure(e) => Failure(e)
    case Success(c) =>
      var k := p.encrypt(CounterBlock(s.nonce, regs.iv.value, c));
      Success(Stepped(XorBytes(block, k), Registers(NonNull(k), regs.iv, NonNull(c), false)))
  }

  /**
   * One pass of the loop body's switch on a 16-byte block: ECB en- or decrypts it; CBC chains it
   * through the feedback register; CFB xors the first count bytes with the encrypted register and
   * shifts the ciphertext in; OFB xors with the encrypted register and shifts that in; CTR xors
   * with the encrypted counter block; CTS throws.
   */
  function Step(dir: TransformDirection, pi: Nullable<Permutation>, s: Settings, regs: Registers, block: seq<bv8>, count: int): (r: Result<Stepped>)
    requires WellFormed(pi, s, regs) && |block| == BlockSize && count == StepSize(s)
    ensures r.Success? ==> |r.value.out| == BlockSize && Live(pi, s, r.value.regs)
  {
    if regs.feedback.Null? then Failure(ClearedError(s.mode))
    else
      var fb := regs.feedback.value;
      match s.mode
      case ECB =>
        Success(Stepped(if dir == Encrypt then pi.value.encrypt(block) else pi.value.decrypt(block), regs))
      case CBC =>
        if dir == Encrypt then
          var c := pi.value.encrypt(XorBytes(block, fb));
          Success(Stepped(c, regs.(feedback := NonNull(c))))
        else
          Success(Stepped(XorBytes(pi.value.decrypt(block), fb), regs.(feedback := NonNull(block))))
      case CFB =>
        var e := pi.value.encrypt(fb);
        var x := XorBytes(e[..count], block[..count]);
        var shifted := if dir == Encrypt then x else block[..count];
        Success(Stepped(x + block[count..], regs.(feedback := NonNull(fb[count..] + shifted))))
      case OFB =>
        var e := pi.value.encrypt(fb);
        Success(Stepped(XorBytes(block[..count], e[..count]) + block[count..], regs.(feedback := NonNull(fb[count..] + e[..count]))))
      case CTS => Failure(NotImplemented)
      case CTR => CounterStep(pi.value, s, regs, block)
  }

  // ---- the loop of EncryptData and DecryptData ----

  /**
   * The block a loop pass works on: count bytes of the buffer from at on (or all that is left
   * when less than a block remains), followed by zeros; a negative length throws.
   */
  function ReadBlock(buf: seq<bv8>, at: int, count: int): (r: Result<seq<bv8>>)
    requires 1 <= count <= BlockSize
    ensures r.Success? ==> |r.value| == BlockSize
  {
    var n := if BlockSize + at > |buf| then |buf| - at else count;
    if at < 0 || n < 0 then Failure(ArgumentOutOfRange)
    else Success(buf[at..at + n] + Buffers.Zeros(BlockSize - n))
  }

  /** The bytes the loop has written, in order, and the registers after it. */
  datatype Chunked = Chunked(written: seq<bv8>, regs: Registers)

  /** w written before the rest of the loop, or the rest's exception. */
  function Prepend(w: seq<bv8>, r: Result<Chunked>): Result<Chunked>
  {
    match r
    case Success(c) => Success(Chunked(w + c.written, c.regs))
    case Failure(e) => Failure(e)
  }

  /**
   * The loop from one pass on: while remaining bytes are left, read a block at at, step it, and
   * write its first count bytes at o (fewer at the end of an output of outLength bytes). Every
   * pass advances by the bytes written; it is only the last pass that writes fewer than count,
   * so the recursion keeps count as the step size. The written bytes fill the output from o on.
   */
  function Loop(dir: TransformDirection, pi: Nullable<Permutation>, s: Settings, regs: Registers, buf: seq<bv8>,
                at: int, o: int, outLength: int, remaining: int, count: int): (r: Result<Chunked>)
    requires WellFormed(pi, s, regs) && count == StepSize(s) && remaining <= outLength - o
    ensures r.Success? ==> WellFormed(pi, s, r.value.regs)
    ensures r.Success? && remaining <= 0 ==> r.value == Chunked([], regs)
    decreases remaining, 2
  {
    if remaining <= 0 then Success(Chunked([], regs))
    else Pass(dir, pi, s, regs, buf, at, o, outLength, remaining, count)
  }

  /** One pass of the loop, when bytes remain: read the block, then step it and go on. */
  function Pass(dir: TransformDirection, pi: Nullable<Permutation>, s: Settings, regs: Registers, buf: seq<bv8>,
                at: int, o: int, outLength: int, remaining: int, count: int): (r: Result<Chunked>)
    requires WellFormed(pi, s, regs) && count == StepSize(s) && 0 < remaining <= outLength - o
    ensures r.Success? ==> WellFormed(pi, s, r.value.regs)
    decreases remaining, 1
  {
    match ReadBlock(buf, at, count)
    case Failure(e) => Failure(e)
    case Success(block) => Continue(dir, pi, s, regs, buf, at, o, outLength, remaining, count, block)
  }

  /** The rest of a pass: step the block, write its first bytes, and go on with the loop. */
  function Continue(dir: TransformDirection, pi: Nullable<Permutation>, s: Settings, regs: Registers, buf: seq<bv8>,
                    at: int, o: int, outLength: int, remaining: int, count: int, block: seq<bv8>): (r: Result<Chunked>)
    requires WellFormed(pi, s, regs) && count == StepSize(s) && 0 < remaining <= outLength - o && |block| == BlockSize
    ensures r.Success? ==> WellFormed(pi, s, r.value.regs)
    decreases remaining, 0
  {
    match Step(dir, pi, s, regs, block, count)
    case Failure(e) => Failure(e)
    case Success(st) =>
      if o < 0 then Failure(ArgumentOutOfRange)
      else
        var n := if o + count > outLength then outLength - o else count;
        Prepend(st.out[..n], Loop(dir, pi, s, st.regs, buf, at + n, o + n, outLength, remaining - n, count))
  }

  // ---- decryption undoes encryption ----

  /** Xoring the same bytes in twice restores the original. */
  lemma XorBytesTwice(a: seq<bv8>, b: seq<bv8>)
    requires |a| == |b|
    ensures XorBytes(XorBytes(a, b), b) == a
  {
  }

  /** A byte xored with a key byte, xored with it again, comes back. */
  lemma XorByteTwice(e: bv8, x: bv8)
    ensures e ^ (e ^ x) == x && (x ^ e) ^ e == x
  {
  }

  /** The first n bytes of a block c that the key stream e turned p into give p back. */
  lemma KeystreamPrefixInverse(e: seq<bv8>, p: seq<bv8>, c: seq<bv8>, outP: seq<bv8>, outC: seq<bv8>, n: int)
    requires 0 <= n <= |e| && n <= |p| && n <= |c| && n <= |outP| && n <= |outC|
    requires forall k :: 0 <= k < n ==> outP[k] == e[k] ^ p[k] && c[k] == outP[k] && outC[k] == e[k] ^ c[k]
    ensures outC[..n] == p[..n]
  {
    forall k | 0 <= k < n
      ensures outC[k] == p[k]
    {
      XorByteTwice(e[k], p[k]);
    }
  }

  /** ECB and CBC: a whole encrypted block decrypts to the block, and CBC's register follows. */
  lemma BlockModeStepInverse(pi: Nullable<Permutation>, s: Settings, regs: Registers, bp: seq<bv8>, bc: seq<bv8>, count: int)
    requires WellFormed(pi, s, regs) && |bp| == BlockSize && count == StepSize(s)
    requires s.mode == ECB || s.mode == CBC
    requires Step(Encrypt, pi, s, regs, bp, count).Success?
    requires bc == Step(Encrypt, pi, s, regs, bp, count).value.out
    ensures Step(Decrypt, pi, s, regs, bc, count) == Success(Stepped(bp, Step(Encrypt, pi, s, regs, bp, count).value.regs))
  {
    var fb := regs.feedback.value;
    if s.mode == ECB {
    } else {
      XorBytesTwice(bp, fb);
    }
  }

  /** CFB: the first n ciphertext bytes decrypt to the plaintext; a whole step shifts in the same bytes. */
  lemma CfbStepInverse(pi: Nullable<Permutation>, s: Settings, regs: Registers, bp: seq<bv8>, bc: seq<bv8>, count: int, n: int)
    requires WellFormed(pi, s, regs) && |bp| == BlockSize && |bc| == BlockSize && count == StepSize(s) && 1 <= n <= count
    requires s.mode == CFB
    requires Step(Encrypt, pi, s, regs, bp, count).Success?
    requires bc[..n] == Step(Encrypt, pi, s, regs, bp, count).value.out[..n]
    ensures Step(Decrypt, pi, s, regs, bc, count).Success?
    ensures Step(Decrypt, pi, s, regs, bc, count).value.out[..n] == bp[..n]
    ensures n == count ==> Step(Decrypt, pi, s, regs, bc, count).value.regs == Step(Encrypt, pi, s, regs, bp, count).value.regs
  {
    var fb := regs.feedback.value;
    var e := pi.value.encrypt(fb);
    var outP := Step(Encrypt, pi, s, regs, bp, count).value.out;
    var outC := Step(Decrypt, pi, s, regs, bc, count).value.out;
    var x := XorBytes(e[..count], bp[..count]);
    assert outP == x + bp[count..];
    assert outC == XorBytes(e[..count], bc[..count]) + bc[count..];
    assert forall k :: 0 <= k < n ==> bc[k] == bc[..n][k];
    KeystreamPrefixInverse(e, bp, bc, outP, outC, n);
    if n == count {
      assert bc[..count] == x;
    }
  }

  /** The CTR step's success and registers do not depend on the block; its output is the block xor the key block. */
  lemma CounterStepKeystream(p: Permutation, s: Settings, regs: Registers, b1: seq<bv8>, b2: seq<bv8>)
    requires Live(NonNull(p), s, regs) && |b1| == BlockSize && |b2| == BlockSize
    ensures CounterStep(p, s, regs, b1).Success? == CounterStep(p, s, regs, b2).Success?
    ensures CounterStep(p, s, regs, b1).Success? ==>
      CounterStep(p, s, regs, b1).value.regs == CounterStep(p, s, regs, b2).value.regs &&
      CounterStep(p, s, regs, b1).value.out == XorBytes(b1, CounterStep(p, s, regs, b1).value.regs.feedback.value)
  {
  }

  /** Xoring with one key stream e, twice, on the first n bytes. */
  lemma KeystreamInverse(e: seq<bv8>, bp: seq<bv8>, bc: seq<bv8>, outP: seq<bv8>, outC: seq<bv8>, n: int)
    requires 0 <= n <= |e| && n <= |bp| && n <= |bc| && n <= |outP| && n <= |outC|
    requires bc[..n] == outP[..n]
    requires forall k :: 0 <= k < n ==> outP[k] == bp[k] ^ e[k] && outC[k] == bc[k] ^ e[k]
    ensures outC[..n] == bp[..n]
  {
    forall k | 0 <= k < n
      ensures outC[k] == bp[k]
    {
      assert bc[k] == bc[..n][k];
      XorByteTwice(e[k], bp[k]);
    }
  }

  /** OFB: the key stream does not depend on the data, so the registers always agree. */
  lemma OfbStepInverse(pi: Nullable<Permutation>, s: Settings, regs: Registers, bp: seq<bv8>, bc: seq<bv8>, count: int, n: int)
    requires WellFormed(pi, s, regs) && |bp| == BlockSize && |bc| == BlockSize && count == StepSize(s) && 1 <= n <= count
    requires s.mode == OFB
    requires Step(Encrypt, pi, s, regs, bp, count).Success?
    requires bc[..n] == Step(Encrypt, pi, s, regs, bp, count).value.out[..n]
    ensures Step(Decrypt, pi, s, regs, bc, count).Success?
    ensures Step(Decrypt, pi, s, regs, bc, count).value.out[..n] == bp[..n]
    ensures Step(Decrypt, pi, s, regs, bc, count).value.regs == Step(Encrypt, pi, s, regs, bp, count).value.regs
  {
    var e := pi.value.encrypt(regs.feedback.value);
    var outP := Step(Encrypt, pi, s, regs, bp, count).value.out;
    var outC := Step(Decrypt, pi, s, regs, bc, count).value.out;
    assert outP == XorBytes(bp[..count], e[..count]) + bp[count..];
    assert outC == XorBytes(bc[..count], e[..count]) + bc[count..];
    KeystreamInverse(e, bp, bc, outP, outC, n);
  }

  /** CTR: the counter and its key block do not depend on the data, so the registers always agree. */
  lemma CtrStepInverse(pi: Nullable<Permutation>, s: Settings, regs: Registers, bp: seq<bv8>, bc: seq<bv8>, count: int, n: int)
    requires WellFormed(pi, s, regs) && |bp| == BlockSize && |bc| == BlockSize && count == StepSize(s) && 1 <= n <= count
    requires s.mode == CTR
    requires Step(Encrypt, pi, s, regs, bp, count).Success?
    requires bc[..n] == Step(Encrypt, pi, s, regs, bp, count).value.out[..n]
    ensures Step(Decrypt, pi, s, regs, bc, count).Success?
    ensures Step(Decrypt, pi, s, regs, bc, count).value.out[..n] == bp[..n]
    ensures Step(Decrypt, pi, s, regs, bc, count).value.regs == Step(Encrypt, pi, s, regs, bp, count).value.regs
  {
    assert Step(Encrypt, pi, s, regs, bp, count) == CounterStep(pi.value, s, regs, bp);
    assert Step(Decrypt, pi, s, regs, bc, count) == CounterStep(pi.value, s, regs, bc);
    CounterStepKeystream(pi.value, s, regs, bp, bc);
    CounterStepKeystream(pi.value, s, regs, bc, bp);
    var e := CounterStep(pi.value, s, regs, bp).value.regs.feedback.value;
    KeystreamInverse(e, bp, bc, CounterStep(pi.value, s, regs, bp).value.out, CounterStep(pi.value, s, regs, bc).value.out, n);
  }

  /**
   * One step of decryption undoes one step of encryption on the first n bytes that the loop
   * writes; after a whole step both directions hold the same registers. ECB and CBC need the
   * whole block.
   */
  lemma StepInverse(pi: Nullable<Permutation>, s: Settings, regs: Registers, bp: seq<bv8>, bc: seq<bv8>, count: int, n: int)
    requires WellFormed(pi, s, regs) && |bp| == BlockSize && |bc| == BlockSize && count == StepSize(s) && 1 <= n <= count
    requires Step(Encrypt, pi, s, regs, bp, count).Success?
    requires bc[..n] == Step(Encrypt, pi, s, regs, bp, count).value.out[..n]
    requires (s.mode == ECB || s.mode == CBC) ==> n == BlockSize
    ensures Step(Decrypt, pi, s, regs, bc, count).Success?
    ensures Step(Decrypt, pi, s, regs, bc, count).value.out[..n] == bp[..n]
    ensures n == count ==> Step(Decrypt, pi, s, regs, bc, count).value.regs == Step(Encrypt, pi, s, regs, bp, count).value.regs
  {
    if s.mode == ECB || s.mode == CBC {
      assert bc == bc[..n] && bp == bp[..n];
      BlockModeStepInverse(pi, s, regs, bp, bc, count);
    } else if s.mode == CFB {
      CfbStepInverse(pi, s, regs, bp, bc, count, n);
    } else if s.mode == OFB {
      OfbStepInverse(pi, s, regs, bp, bc, count, n);
    } else if s.mode == CTR {
      CtrStepInverse(pi, s, regs, bp, bc, count, n);
    }
  }

  /**
   * In the stream modes (CFB, OFB and CTR) a step in either direction uses the block cipher only
   * forwards, as a keystream: two permutations that encrypt alike give the same step. This is why
   * these modes need no padding of a partial last block.
   */
  lemma StreamStepForwardOnly(dir: TransformDirection, p1: Permutation, p2: Permutation, s: Settings, regs: Registers,
                              block: seq<bv8>, count: int)
    requires Utils.IsStreamMode(s.mode) && p1.encrypt == p2.encrypt
    requires WellFormed(NonNull(p1), s, regs) && WellFormed(NonNull(p2), s, regs)
    requires |block| == BlockSize && count == StepSize(s)
    ensures Step(dir, NonNull(p1), s, regs, block, count) == Step(dir, NonNull(p2), s, regs, block, count)
  {
  }

  /** The bytes written by a pass: count, or what is left of an output of outLength bytes. */
  function PassLength(o: int, outLength: int, count: int): int
  {
    if o + count > outLength then outLength - o else count
  }

  /** One pass of the loop, when reading and stepping the block succeed and the output offset is valid. */
  lemma LoopUnfold(dir: TransformDirection, pi: Nullable<Permutation>, s: Settings, regs: Registers, buf: seq<bv8>,
                   at: int, o: int, outLength: int, remaining: int, count: int, block: seq<bv8>, st: Stepped)
    requires WellFormed(pi, s, regs) && count == StepSize(s) && remaining <= outLength - o
    requires 0 < remaining && 0 <= o
    requires ReadBlock(buf, at, count) == Success(block)
    requires Step(dir, pi, s, regs, block, count) == Success(st)
    ensures WellFormed(pi, s, st.regs) && 1 <= PassLength(o, outLength, count) <= count
    ensures Loop(dir, pi, s, regs, buf, at, o, outLength, remaining, count) ==
      Prepend(st.out[..PassLength(o, outLength, count)],
        Loop(dir, pi, s, st.regs, buf, at + PassLength(o, outLength, count), o + PassLength(o, outLength, count), outLength,
             remaining - PassLength(o, outLength, count), count))
  {
    assert Loop(dir, pi, s, regs, buf, at, o, outLength, remaining, count) ==
      Pass(dir, pi, s, regs, buf, at, o, outLength, remaining, count) ==
      Continue(dir, pi, s, regs, buf, at, o, outLength, remaining, count, block);
  }

  /** A pass whose block cannot be read ends the loop with that exception. */
  lemma LoopReadFails(dir: TransformDirection, pi: Nullable<Permutation>, s: Settings, regs: Registers, buf: seq<bv8>,
                      at: int, o: int, outLength: int, remaining: int, count: int)
    requires WellFormed(pi, s, regs) && count == StepSize(s) && 0 < remaining <= outLength - o
    requires ReadBlock(buf, at, count).Failure?
    ensures Loop(dir, pi, s, regs, buf, at, o, outLength, remaining, count) == Failure(ReadBlock(buf, at, count).error)
  {
    assert Loop(dir, pi, s, regs, buf, at, o, outLength, remaining, count) ==
      Pass(dir, pi, s, regs, buf, at, o, outLength, remaining, count);
  }

  /** A pass whose step throws, or whose output offset is negative, ends the loop with that exception. */
  lemma LoopPassFails(dir: TransformDirection, pi: Nullable<Permutation>, s: Settings, regs: Registers, buf: seq<bv8>,
                      at: int, o: int, outLength: int, remaining: int, count: int, block: seq<bv8>)
    requires WellFormed(pi, s, regs) && count == StepSize(s) && 0 < remaining <= outLength - o
    requires ReadBlock(buf, at, count) == Success(block)
    ensures Step(dir, pi, s, regs, block, count).Failure? ==>
      Loop(dir, pi, s, regs, buf, at, o, outLength, remaining, count) == Failure(Step(dir, pi, s, regs, block, count).error)
    ensures Step(dir, pi, s, regs, block, count).Success? && o < 0 ==>
      Loop(dir, pi, s, regs, buf, at, o, outLength, remaining, count) == Failure(ArgumentOutOfRange)
  {
    assert Loop(dir, pi, s, regs, buf, at, o, outLength, remaining, count) ==
      Pass(dir, pi, s, regs, buf, at, o, outLength, remaining, count) ==
      Continue(dir, pi, s, regs, buf, at, o, outLength, remaining, count, block);
  }

  /** Bytes written before bytes written before the rest of a loop. */
  lemma PrependTwice(w: seq<bv8>, x: seq<bv8>, r: Result<Chunked>)
    ensures Prepend(w, Prepend(x, r)) == Prepend(w + x, r)
  {
    if r.Success? {
      assert w + (x + r.value.written) == (w + x) + r.value.written;
    }
  }

  /** The first n bytes of a block read at at, when at least n bytes of the buffer remain there. */
  lemma ReadBlockPrefix(buf: seq<bv8>, at: int, count: int, n: int)
    requires 1 <= count <= BlockSize && 0 <= at && 1 <= n <= count && n <= |buf| - at
    ensures ReadBlock(buf, at, count).Success?
    ensures ReadBlock(buf, at, count).value[..n] == buf[at..at + n]
  {
    var b := if BlockSize + at > |buf| then |buf| - at else count;
    assert ReadBlock(buf, at, count).value == buf[at..at + b] + Buffers.Zeros(BlockSize - b);
  }

  /** Two blocks read where equally many bytes remain agree wherever the buffers agree. */
  lemma ReadBlockSame(p: seq<bv8>, i: int, c: seq<bv8>, j: int, count: int)
    requires 1 <= count <= BlockSize && 0 <= i <= |p| && 0 <= j <= |c| && |p| - i == |c| - j
    ensures ReadBlock(p, i, count).Success? && ReadBlock(c, j, count).Success?
  {
  }

  /** The loop covers remaining bytes in whole steps of count bytes. */
  predicate WholeSteps(remaining: int, count: int)
    requires count >= 1
    decreases remaining
  {
    remaining == 0 || (remaining >= count && WholeSteps(remaining - count, count))
  }

  /**
   * What a loop writes fits in the output: from o on, up to outLength; a loop that writes
   * anything starts at a valid offset.
   */
  lemma {:induction false} LoopWithin(dir: TransformDirection, pi: Nullable<Permutation>, s: Settings, regs: Registers, buf: seq<bv8>,
                                      at: int, o: int, outLength: int, remaining: int, count: int)
    requires WellFormed(pi, s, regs) && count == StepSize(s) && remaining <= outLength - o
    requires Loop(dir, pi, s, regs, buf, at, o, outLength, remaining, count).Success?
    ensures Loop(dir, pi, s, regs, buf, at, o, outLength, remaining, count).value.written == [] ||
            (0 <= o && o + |Loop(dir, pi, s, regs, buf, at, o, outLength, remaining, count).value.written| <= outLength)
    decreases remaining
  {
    if remaining > 0 {
      var block, st := LoopSuccess(dir, pi, s, regs, buf, at, o, outLength, remaining, count);
      LoopUnfold(dir, pi, s, regs, buf, at, o, outLength, remaining, count, block, st);
      var n := PassLength(o, outLength, count);
      LoopWithin(dir, pi, s, st.regs, buf, at + n, o + n, outLength, remaining - n, count);
    }
  }

  /** A loop into an output with exactly remaining bytes of room at o writes exactly remaining bytes. */
  lemma {:induction false} LoopExact(dir: TransformDirection, pi: Nullable<Permutation>, s: Settings, regs: Registers, buf: seq<bv8>,
                                     at: int, o: int, outLength: int, remaining: int, count: int)
    requires WellFormed(pi, s, regs) && count == StepSize(s) && 0 <= remaining && outLength == o + remaining
    requires Loop(dir, pi, s, regs, buf, at, o, outLength, remaining, count).Success?
    ensures |Loop(dir, pi, s, regs, buf, at, o, outLength, remaining, count).value.written| == remaining
    decreases remaining
  {
    if remaining > 0 {
      var block, st := LoopSuccess(dir, pi, s, regs, buf, at, o, outLength, remaining, count);
      LoopUnfold(dir, pi, s, regs, buf, at, o, outLength, remaining, count, block, st);
      var n := PassLength(o, outLength, count);
      LoopExact(dir, pi, s, st.regs, buf, at + n, o + n, outLength, remaining - n, count);
    }
  }

  /** A loop that succeeds with bytes remaining has read and stepped a block, at a valid output offset. */
  lemma LoopSuccess(dir: TransformDirection, pi: Nullable<Permutation>, s: Settings, regs: Registers, buf: seq<bv8>,
                    at: int, o: int, outLength: int, remaining: int, count: int) returns (block: seq<bv8>, st: Stepped)
    requires WellFormed(pi, s, regs) && count == StepSize(s) && 0 < remaining <= outLength - o
    requires Loop(dir, pi, s, regs, buf, at, o, outLength, remaining, count).Success?
    ensures ReadBlock(buf, at, count) == Success(block) && Step(dir, pi, s, regs, block, count) == Success(st) && 0 <= o
  {
    assert Loop(dir, pi, s, regs, buf, at, o, outLength, remaining, count) ==
      Pass(dir, pi, s, regs, buf, at, o, outLength, remaining, count);
    block := ReadBlock(buf, at, count).value;
    assert Pass(dir, pi, s, regs, buf, at, o, outLength, remaining, count) ==
      Continue(dir, pi, s, regs, buf, at, o, outLength, remaining, count, block);
    st := Step(dir, pi, s, regs, block, count).value;
  }

  /**
   * The encryption pass: where c holds what encryption writes, the first n bytes of c are the
   * first n bytes of the stepped block of p, and the rest of the loop writes the rest.
   */
  lemma EncryptPass(pi: Nullable<Permutation>, s: Settings, regs: Registers, p: seq<bv8>, i: int,
                    c: seq<bv8>, j: int, o: int, outLength: int, remaining: int, count: int)
    returns (n: int, bp: seq<bv8>, st: Stepped)
    requires WellFormed(pi, s, regs) && count == StepSize(s)
    requires 0 <= i && remaining <= |p| - i && 0 <= j <= |c| && remaining == |c| - j && 0 <= o && outLength == o + remaining
    requires 0 < remaining
    requires Loop(Encrypt, pi, s, regs, p, i, o, outLength, remaining, count).Success?
    requires c[j..] == Loop(Encrypt, pi, s, regs, p, i, o, outLength, remaining, count).value.written
    ensures n == PassLength(o, outLength, count) && 1 <= n <= remaining && (remaining - n > 0 ==> n == count)
    ensures ReadBlock(p, i, count) == Success(bp) && Step(Encrypt, pi, s, regs, bp, count) == Success(st)
    ensures WellFormed(pi, s, st.regs) && |bp| == BlockSize && |st.out| == BlockSize
    ensures bp[..n] == p[i..i + n] && st.out[..n] == c[j..j + n]
    ensures Loop(Encrypt, pi, s, regs, p, i, o, outLength, remaining, count) ==
      Prepend(c[j..j + n], Loop(Encrypt, pi, s, st.regs, p, i + n, o + n, outLength, remaining - n, count))
  {
    bp, st := LoopSuccess(Encrypt, pi, s, regs, p, i, o, outLength, remaining, count);
    n := PassLength(o, outLength, count);
    LoopUnfold(Encrypt, pi, s, regs, p, i, o, outLength, remaining, count, bp, st);
    var rest := Loop(Encrypt, pi, s, st.regs, p, i + n, o + n, outLength, remaining - n, count);
    assert c[j..] == st.out[..n] + rest.value.written;
    assert c[j..j + n] == c[j..][..n] == st.out[..n];
    ReadBlockPrefix(p, i, count, n);
  }

  /**
   * One pass of both loops: when encryption writes the bytes c[j..j+n] first, decryption writes
   * p[i..i+n] first, for the same pass length n; after a whole step the registers agree.
   */
  lemma PassRoundTrip(pi: Nullable<Permutation>, s: Settings, regs: Registers, p: seq<bv8>, i: int,
                      c: seq<bv8>, j: int, o: int, outLength: int, remaining: int, count: int)
    returns (n: int, ep: Registers, dp: Registers)
    requires WellFormed(pi, s, regs) && count == StepSize(s)
    requires 0 <= i && remaining <= |p| - i && 0 <= j <= |c| && remaining == |c| - j && 0 <= o && outLength == o + remaining
    requires 0 < remaining && ((s.mode == ECB || s.mode == CBC) ==> WholeSteps(remaining, count))
    requires Loop(Encrypt, pi, s, regs, p, i, o, outLength, remaining, count).Success?
    requires c[j..] == Loop(Encrypt, pi, s, regs, p, i, o, outLength, remaining, count).value.written
    ensures n == PassLength(o, outLength, count) && 1 <= n <= remaining && (remaining - n > 0 ==> n == count)
    ensures (s.mode == ECB || s.mode == CBC) ==> WholeSteps(remaining - n, count)
    ensures WellFormed(pi, s, ep) && WellFormed(pi, s, dp) && (n == count ==> dp == ep)
    ensures Loop(Encrypt, pi, s, regs, p, i, o, outLength, remaining, count) ==
      Prepend(c[j..j + n], Loop(Encrypt, pi, s, ep, p, i + n, o + n, outLength, remaining - n, count))
    ensures Loop(Decrypt, pi, s, regs, c, j, o, outLength, remaining, count) ==
      Prepend(p[i..i + n], Loop(Decrypt, pi, s, dp, c, j + n, o + n, outLength, remaining - n, count))
  {
    var bp, st;
    n, bp, st := EncryptPass(pi, s, regs, p, i, c, j, o, outLength, remaining, count);
    ep := st.regs;
    ReadBlockPrefix(c, j, count, n);
    var bc := ReadBlock(c, j, count).value;
    StepInverse(pi, s, regs, bp, bc, count, n);
    var sd := Step(Decrypt, pi, s, regs, bc, count).value;
    dp := sd.regs;
    LoopUnfold(Decrypt, pi, s, regs, c, j, o, outLength, remaining, count, bc, sd);
  }

  /**
   * How the written bytes of two loops split after one pass: encryption's rest writes the rest
   * of c, and decryption writes the rest of p when its rest does.
   */
  lemma SplitPass(e: Result<Chunked>, e2: Result<Chunked>, d: Result<Chunked>, d2: Result<Chunked>,
                  p: seq<bv8>, i: int, c: seq<bv8>, j: int, n: int, m: int)
    requires 0 <= i && 0 <= j && 0 <= n <= m && i + m <= |p| && j + n <= |c|
    requires e == Prepend(c[j..j + n], e2) && d == Prepend(p[i..i + n], d2)
    requires e.Success? && c[j..] == e.value.written
    ensures e2.Success? && c[j + n..] == e2.value.written && e.value.regs == e2.value.regs
    ensures d2.Success? && d2.value.written == p[i + n..i + m] ==>
      d.Success? && d.value.written == p[i..i + m] && d.value.regs == d2.value.regs
  {
    assert c[j..] == c[j..j + n] + c[j + n..];
    assert p[i..i + m] == p[i..i + n] + p[i + n..i + m];
  }

  /**
   * The decryption loop undoes the encryption loop: when the encryption of remaining bytes of p
   * from i on (into an output with exactly that much room) succeeds and c ends with its output,
   * the decryption of c's last bytes gives those bytes of p back. ECB and CBC need whole blocks.
   */
  lemma {:induction false} LoopRoundTrip(pi: Nullable<Permutation>, s: Settings, regs: Registers, p: seq<bv8>, i: int,
                                         c: seq<bv8>, j: int, o: int, outLength: int, remaining: int, count: int)
    requires WellFormed(pi, s, regs) && count == StepSize(s)
    requires 0 <= i && remaining <= |p| - i && 0 <= j <= |c| && remaining == |c| - j && 0 <= o && outLength == o + remaining
    requires (s.mode == ECB || s.mode == CBC) ==> WholeSteps(remaining, count)
    requires Loop(Encrypt, pi, s, regs, p, i, o, outLength, remaining, count).Success?
    requires c[j..] == Loop(Encrypt, pi, s, regs, p, i, o, outLength, remaining, count).value.written
    ensures Loop(Decrypt, pi, s, regs, c, j, o, outLength, remaining, count).Success?
    ensures Loop(Decrypt, pi, s, regs, c, j, o, outLength, remaining, count).value.written == p[i..i + remaining]
    decreases remaining
  {
    if remaining > 0 {
      var n, ep, dp := PassRoundTrip(pi, s, regs, p, i, c, j, o, outLength, remaining, count);
      SplitPass(Loop(Encrypt, pi, s, regs, p, i, o, outLength, remaining, count),
                Loop(Encrypt, pi, s, ep, p, i + n, o + n, outLength, remaining - n, count),
                Loop(Decrypt, pi, s, regs, c, j, o, outLength, remaining, count),
                Loop(Decrypt, pi, s, dp, c, j + n, o + n, outLength, remaining - n, count), p, i, c, j, n, remaining);
      if remaining - n > 0 {
        assert dp == ep;
        LoopRoundTrip(pi, s, ep, p, i + n, c, j + n, o + n, outLength, remaining - n, count);
      } else {
        assert p[i + n..i + remaining] == [];
        assert Loop(Decrypt, pi, s, dp, c, j + n, o + n, outLength, remaining - n, count) == Success(Chunked([], dp));
      }
    }
  }

  /**
   * When every pass is a whole step (always in ECB, CBC, OFB and CTR over whole blocks, and in CFB
   * when the length is a multiple of the shift size), decryption ends with the registers that
   * encryption ended with: the two sides stay in step.
   */
  lemma {:induction false} LoopRegisters(pi: Nullable<Permutation>, s: Settings, regs: Registers, p: seq<bv8>, i: int,
                                         c: seq<bv8>, j: int, o: int, outLength: int, remaining: int, count: int)
    requires WellFormed(pi, s, regs) && count == StepSize(s)
    requires 0 <= i && remaining <= |p| - i && 0 <= j <= |c| && remaining == |c| - j && 0 <= o && outLength == o + remaining
    requires (s.mode == ECB || s.mode == CBC) ==> WholeSteps(remaining, count)
    requires Loop(Encrypt, pi, s, regs, p, i, o, outLength, remaining, count).Success?
    requires c[j..] == Loop(Encrypt, pi, s, regs, p, i, o, outLength, remaining, count).value.written
    requires WholeSteps(remaining, count)
    ensures Loop(Decrypt, pi, s, regs, c, j, o, outLength, remaining, count).Success?
    ensures Loop(Decrypt, pi, s, regs, c, j, o, outLength, remaining, count).value.regs ==
      Loop(Encrypt, pi, s, regs, p, i, o, outLength, remaining, count).value.regs
    decreases remaining
  {
    LoopRoundTrip(pi, s, regs, p, i, c, j, o, outLength, remaining, count);
    if remaining > 0 {
      var n, ep, dp := PassRoundTrip(pi, s, regs, p, i, c, j, o, outLength, remaining, count);
      assert n == count && dp == ep;
      SplitPass(Loop(Encrypt, pi, s, regs, p, i, o, outLength, remaining, count),
                Loop(Encrypt, pi, s, ep, p, i + n, o + n, outLength, remaining - n, count),
                Loop(Decrypt, pi, s, regs, c, j, o, outLength, remaining, count),
                Loop(Decrypt, pi, s, dp, c, j + n, o + n, outLength, remaining - n, count), p, i, c, j, n, remaining);
      LoopRoundTrip(pi, s, ep, p, i + n, c, j + n, o + n, outLength, remaining - n, count);
      LoopRegisters(pi, s, ep, p, i + n, c, j + n, o + n, outLength, remaining - n, count);
    }
  }

  // ---- where the loop is cut: one call or two ----

  /** A block read where the buffers agree from at on, to the end, is the same block. */
  lemma ReadBlockSuffix(p: seq<bv8>, i: int, c: seq<bv8>, j: int, count: int)
    requires 1 <= count <= BlockSize && 0 <= i && 0 <= j && |p| - i == |c| - j
    requires i <= |p| ==> p[i..] == c[j..]
    ensures ReadBlock(p, i, count) == ReadBlock(c, j, count)
  {
    var n := if BlockSize + i > |p| then |p| - i else count;
    if n >= 0 {
      assert p[i..i + n] == p[i..][..n] == c[j..][..n] == c[j..j + n];
    }
  }

  /**
   * The loop depends on the buffer only from the read offset on, and on the output only through
   * the room left in it: two loops that agree on both write the same bytes and end in the same
   * registers.
   */
  lemma {:induction false} LoopSame(dir: TransformDirection, pi: Nullable<Permutation>, s: Settings, regs: Registers,
                                    p: seq<bv8>, i: int, o1: int, len1: int, c: seq<bv8>, j: int, o2: int, len2: int,
                                    remaining: int, count: int)
    requires WellFormed(pi, s, regs) && count == StepSize(s) && remaining <= len1 - o1
    requires 0 <= o1 && 0 <= o2 && len1 - o1 == len2 - o2
    requires 0 <= i && 0 <= j && |p| - i == |c| - j && (i <= |p| ==> p[i..] == c[j..])
    ensures Loop(dir, pi, s, regs, p, i, o1, len1, remaining, count) == Loop(dir, pi, s, regs, c, j, o2, len2, remaining, count)
    decreases remaining
  {
    if remaining > 0 {
      ReadBlockSuffix(p, i, c, j, count);
      var rb := ReadBlock(p, i, count);
      if rb.Failure? {
        LoopReadFails(dir, pi, s, regs, p, i, o1, len1, remaining, count);
        LoopReadFails(dir, pi, s, regs, c, j, o2, len2, remaining, count);
      } else {
        var r := Step(dir, pi, s, regs, rb.value, count);
        if r.Success? {
          LoopUnfold(dir, pi, s, regs, p, i, o1, len1, remaining, count, rb.value, r.value);
          LoopUnfold(dir, pi, s, regs, c, j, o2, len2, remaining, count, rb.value, r.value);
          var n := PassLength(o1, len1, count);
          if i + n <= |p| {
            assert p[i + n..] == p[i..][n..] == c[j..][n..] == c[j + n..];
          }
          LoopSame(dir, pi, s, r.value.regs, p, i + n, o1 + n, len1, c, j + n, o2 + n, len2, remaining - n, count);
        } else {
          LoopPassFails(dir, pi, s, regs, p, i, o1, len1, remaining, count, rb.value);
          LoopPassFails(dir, pi, s, regs, c, j, o2, len2, remaining, count, rb.value);
        }
      }
    }
  }

  /** A block read a whole block before the end of the buffer is count bytes of it and zeros. */
  lemma ReadBlockInside(buf: seq<bv8>, at: int, count: int)
    requires 1 <= count <= BlockSize && 0 <= at && at + BlockSize <= |buf|
    ensures ReadBlock(buf, at, count) == Success(buf[at..at + count] + Buffers.Zeros(BlockSize - count))
  {
  }

  /** Two ranges that agree agree on their first count bytes and on the rest. */
  lemma SlicesAgree(p: seq<bv8>, i: int, c: seq<bv8>, j: int, remaining: int, count: int)
    requires 0 <= i && 0 <= j && 0 <= count <= remaining && i + remaining <= |p| && j + remaining <= |c|
    requires p[i..i + remaining] == c[j..j + remaining]
    ensures p[i..i + count] == c[j..j + count] && p[i + count..i + remaining] == c[j + count..j + remaining]
  {
    assert p[i..i + count] == p[i..i + remaining][..count];
    assert c[j..j + count] == c[j..j + remaining][..count];
    assert p[i + count..i + remaining] == p[i..i + remaining][count..];
    assert c[j + count..j + remaining] == c[j..j + remaining][count..];
  }

  /**
   * A loop over whole steps never reaches the end of its output, and reads no further than its
   * remaining bytes and a block: two such loops over buffers that agree on those bytes write the
   * same bytes and end in the same registers, whatever room their outputs have.
   */
  lemma {:induction false} LoopWholeSame(dir: TransformDirection, pi: Nullable<Permutation>, s: Settings, regs: Registers,
                                         p: seq<bv8>, i: int, o1: int, len1: int, c: seq<bv8>, j: int, o2: int, len2: int,
                                         remaining: int, count: int)
    requires WellFormed(pi, s, regs) && count == StepSize(s) && WholeSteps(remaining, count)
    requires 0 <= o1 && 0 <= o2 && remaining <= len1 - o1 && remaining <= len2 - o2
    requires 0 <= i && 0 <= j && remaining + BlockSize <= |p| - i && remaining + BlockSize <= |c| - j
    requires p[i..i + remaining] == c[j..j + remaining]
    ensures Loop(dir, pi, s, regs, p, i, o1, len1, remaining, count) == Loop(dir, pi, s, regs, c, j, o2, len2, remaining, count)
    decreases remaining
  {
    if remaining > 0 {
      assert remaining >= count && WholeSteps(remaining - count, count);
      SlicesAgree(p, i, c, j, remaining, count);
      var block := p[i..i + count] + Buffers.Zeros(BlockSize - count);
      ReadBlockInside(p, i, count);
      ReadBlockInside(c, j, count);
      var r := Step(dir, pi, s, regs, block, count);
      if r.Success? {
        LoopUnfold(dir, pi, s, regs, p, i, o1, len1, remaining, count, block, r.value);
        LoopUnfold(dir, pi, s, regs, c, j, o2, len2, remaining, count, block, r.value);
        LoopWholeSame(dir, pi, s, r.value.regs, p, i + count, o1 + count, len1, c, j + count, o2 + count, len2,
                      remaining - count, count);
      } else {
        LoopPassFails(dir, pi, s, regs, p, i, o1, len1, remaining, count, block);
        LoopPassFails(dir, pi, s, regs, c, j, o2, len2, remaining, count, block);
      }
    }
  }

  /**
   * A loop over first + rest bytes, where first is whole steps, is the loop over the first bytes
   * followed by the loop over the rest from the registers it ends in (or the first part's exception).
   */
  lemma {:induction false} LoopSplit(dir: TransformDirection, pi: Nullable<Permutation>, s: Settings, regs: Registers,
                                     buf: seq<bv8>, at: int, o: int, outLength: int, first: int, rest: int, count: int,
                                     at2: int, o2: int)
    requires WellFormed(pi, s, regs) && count == StepSize(s) && WholeSteps(first, count)
    requires 0 <= o && 0 <= rest && first + rest <= outLength - o && at2 == at + first && o2 == o + first
    ensures var r1 := Loop(dir, pi, s, regs, buf, at, o, outLength, first, count);
            Loop(dir, pi, s, regs, buf, at, o, outLength, first + rest, count) ==
              if r1.Failure? then r1
              else Prepend(r1.value.written, Loop(dir, pi, s, r1.value.regs, buf, at2, o2, outLength, rest, count))
    decreases first
  {
    if first == 0 {
      var r := Loop(dir, pi, s, regs, buf, at2, o2, outLength, rest, count);
      if r.Success? {
        assert [] + r.value.written == r.value.written;
      }
    } else {
      assert first >= count && WholeSteps(first - count, count);
      var rb := ReadBlock(buf, at, count);
      if rb.Failure? {
        LoopReadFails(dir, pi, s, regs, buf, at, o, outLength, first + rest, count);
        LoopReadFails(dir, pi, s, regs, buf, at, o, outLength, first, count);
      } else {
        var r := Step(dir, pi, s, regs, rb.value, count);
        if r.Success? {
          assert PassLength(o, outLength, count) == count;
          LoopUnfold(dir, pi, s, regs, buf, at, o, outLength, first + rest, count, rb.value, r.value);
          LoopUnfold(dir, pi, s, regs, buf, at, o, outLength, first, count, rb.value, r.value);
          LoopSplit(dir, pi, s, r.value.regs, buf, at + count, o + count, outLength, first - count, rest, count, at2, o2);
          var r2 := Loop(dir, pi, s, r.value.regs, buf, at + count, o + count, outLength, first - count, count);
          if r2.Success? {
            var tail := Loop(dir, pi, s, r2.value.regs, buf, at2, o2, outLength, rest, count);
            assert Loop(dir, pi, s, r.value.regs, buf, at + count, o + count, outLength, first + rest - count, count) ==
                     Prepend(r2.value.written, tail);
            PrependTwice(r.value.out[..count], r2.value.written, tail);
            assert Loop(dir, pi, s, regs, buf, at, o, outLength, first, count) ==
                     Success(Chunked(r.value.out[..count] + r2.value.written, r2.value.regs));
          }
        } else {
          LoopPassFails(dir, pi, s, regs, buf, at, o, outLength, first + rest, count, rb.value);
          LoopPassFails(dir, pi, s, regs, buf, at, o, outLength, first, count, rb.value);
        }
      }
    }
  }
}
