/**
 * The padding of Crypto/ManagedTransformBase.cs: how many bytes a final encryption appends
 * (EncryptData, lines 329-355), what those bytes are (lines 357-377), and how a final decryption
 * checks and strips them again (DecryptData, lines 664-703). The padding is computed against the
 * 16-byte input block of the cipher.
 */
module Padding {
  import opened Outcomes
  import opened Enums
  import opened Utils
  import Buffers

  /** InputBlockSize: the padding rounds up to whole 16-byte blocks. */
  const InputBlockSize := 16

  /** The modes that end the data with a length byte, which the final decryption reads and strips. */
  predicate Strips(padding: PaddingMode)
  {
    padding == PKCS7 || padding == ANSIX923 || padding == ISO10126
  }

  /**
   * The padding a final encryption needs after count bytes: up to the next block boundary, a
   * whole block when count is already aligned (except for zero padding), and none without
   * padding, where a partial block is an error unless the mode is a stream mode.
   */
  function PaddingSize(padding: PaddingMode, mode: ExtendedCipherMode, count: nat): (r: Result<nat>)
    ensures r.Failure? <==> padding == NoPadding && count % InputBlockSize != 0 && !IsStreamMode(mode)
    ensures r.Failure? ==> r.error == Cryptographic
    ensures r.Success? && padding != NoPadding ==> (count + r.value) % InputBlockSize == 0
    ensures r.Success? && Strips(padding) ==> 1 <= r.value <= InputBlockSize
    ensures r.Success? && !Strips(padding) ==> r.value < InputBlockSize
    ensures r.Success? ==> (r.value == 0 <==> padding == NoPadding || (padding == Zeros && count % InputBlockSize == 0))
  {
    var partial := count % InputBlockSize;
    match padding
    case NoPadding => if partial != 0 && !IsStreamMode(mode) then Failure(Cryptographic) else Success(0)
    case PKCS7 => Success(InputBlockSize - partial)
    case Zeros => Success(if partial != 0 then InputBlockSize - partial else 0)
    case ANSIX923 => Success(InputBlockSize - partial)
    case ISO10126 => Success(InputBlockSize - partial)
  }

  /**
   * The size padding bytes: each holds the size (PKCS7); zeros and then the size (ANSI X9.23);
   * bytes of the random number generator and then the size (ISO 10126); zeros otherwise. The
   * generator's output is the parameter random, of which the first size - 1 bytes are kept.
   */
  function PaddingBytes(padding: PaddingMode, size: int, random: seq<bv8>): (d: seq<bv8>)
    requires 1 <= size <= InputBlockSize && |random| == InputBlockSize
    ensures |d| == size
  {
    match padding
    case PKCS7 => seq(size, _ => size as bv8)
    case ANSIX923 => Buffers.Zeros(size - 1) + [size as bv8]
    case ISO10126 => random[..size - 1] + [size as bv8]
    case _ => Buffers.Zeros(size)
  }

  /**
   * The padding check of a final decryption on the whole decrypted output: the last byte is the
   * padding size, which must lie in 1 .. 16 and within the output; PKCS7 wants every padding
   * byte to hold the size, ANSI X9.23 wants the bytes before the last to be zero, ISO 10126
   * checks only the size. An empty output has no last byte. Zero padding and no padding strip
   * nothing.
   */
  function Depad(padding: PaddingMode, plain: seq<bv8>): (r: Result<seq<bv8>>)
  {
    if !Strips(padding) then Success(plain)
    else if |plain| == 0 then Failure(IndexOutOfRange)
    else
      var size := plain[|plain| - 1] as int;
      if size > |plain| || size > InputBlockSize || size <= 0 then Failure(Cryptographic)
      else if padding == PKCS7 && !PaddingFilled(plain, size, size as bv8) then Failure(Cryptographic)
      else if padding == ANSIX923 && !PaddingFilled(plain, size, 0) then Failure(Cryptographic)
      else Success(plain[..|plain| - size])
  }

  /** The size - 1 bytes before the last byte of plain all hold x. */
  predicate PaddingFilled(plain: seq<bv8>, size: int, x: bv8)
    requires 1 <= size <= |plain|
  {
    forall k :: |plain| - size <= k < |plain| - 1 ==> plain[k] == x
  }

  /** The padding bytes end with the size, in every mode that strips. */
  lemma PaddingBytesLast(padding: PaddingMode, size: int, random: seq<bv8>)
    requires 1 <= size <= InputBlockSize && |random| == InputBlockSize && Strips(padding)
    ensures PaddingBytes(padding, size, random)[size - 1] == size as bv8
  {
  }

  /**
   * A final decryption strips exactly what a final encryption appended: data followed by its
   * PKCS7, ANSI X9.23 or ISO 10126 padding has the data as its depadded form.
   */
  lemma DepadPadding(padding: PaddingMode, data: seq<bv8>, size: int, random: seq<bv8>)
    requires 1 <= size <= InputBlockSize && |random| == InputBlockSize && Strips(padding)
    ensures Depad(padding, data + PaddingBytes(padding, size, random)) == Success(data)
  {
    var d := PaddingBytes(padding, size, random);
    var plain := data + d;
    PaddingBytesLast(padding, size, random);
    assert plain[|plain| - 1] == d[size - 1];
    if padding == PKCS7 {
      assert PaddingFilled(plain, size, size as bv8) by {
        forall k | |plain| - size <= k < |plain| - 1
          ensures plain[k] == size as bv8
        {
          assert plain[k] == d[k - |data|];
        }
      }
    } else if padding == ANSIX923 {
      assert PaddingFilled(plain, size, 0) by {
        forall k | |plain| - size <= k < |plain| - 1
          ensures plain[k] == 0
        {
          assert plain[k] == d[k - |data|];
        }
      }
    }
    assert plain[..|plain| - size] == data;
  }

  /**
   * Conversely, when the padding check passes, the output is the depadded data followed by a
   * padding of 1 .. 16 bytes that ends with its size; for PKCS7 and ANSI X9.23 it is exactly
   * the padding a final encryption appends (ISO 10126 leaves the bytes before the size open).
   */
  lemma DepadSound(padding: PaddingMode, plain: seq<bv8>, random: seq<bv8>)
    requires Strips(padding) && |random| == InputBlockSize && Depad(padding, plain).Success?
    ensures 1 <= |plain| - |Depad(padding, plain).value| <= InputBlockSize
    ensures plain[..|Depad(padding, plain).value|] == Depad(padding, plain).value
    ensures plain[|plain| - 1] as int == |plain| - |Depad(padding, plain).value|
    ensures padding != ISO10126 ==>
              plain == Depad(padding, plain).value + PaddingBytes(padding, |plain| - |Depad(padding, plain).value|, random)
  {
    var size := plain[|plain| - 1] as int;
    var data := plain[..|plain| - size];
    if padding != ISO10126 {
      var d := PaddingBytes(padding, size, random);
      assert plain == data + d by {
        forall k | 0 <= k < |plain|
          ensures plain[k] == (data + d)[k]
        {
          if k >= |data| {
            assert (data + d)[k] == d[k - |data|];
          }
        }
      }
    }
  }

  /**
   * The padding check reads only the last block: on bytes a followed by at least a block b it
   * passes or fails as it does on b, and keeps a in front of what it leaves.
   */
  lemma DepadPrefix(padding: PaddingMode, a: seq<bv8>, b: seq<bv8>)
    requires |b| >= InputBlockSize
    ensures Depad(padding, a + b) == match Depad(padding, b)
                                     case Success(x) => Success(a + x)
                                     case Failure(e) => Failure(e)
  {
    var p := a + b;
    if Strips(padding) {
      assert p[|p| - 1] == b[|b| - 1];
      var size := b[|b| - 1] as int;
      if 1 <= size <= InputBlockSize {
        forall x: bv8 ensures PaddingFilled(p, size, x) <==> PaddingFilled(b, size, x) {
          assert forall k :: |a| <= k < |p| ==> p[k] == b[k - |a|];
          assert forall k :: 0 <= k < |b| ==> b[k] == p[k + |a|];
        }
        assert p[..|p| - size] == a + b[..|b| - size];
      }
    }
  }
}
