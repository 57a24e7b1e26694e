/**
 * The .NET array primitives the transforms use on their byte and word buffers: Array.CopyTo,
 * Array.Copy between two distinct arrays, within one array, and from a caller's buffer, and
 * Array.Clear over a whole array.
 */
module Buffers {

  /** A run of n zero bytes. */
  function Zeros(n: nat): (z: seq<bv8>)
    ensures |z| == n && forall i :: 0 <= i < n ==> z[i] == 0
  {
    seq(n, _ => 0)
  }

  /** Array.CopyTo: all of src is written into dst from index at on; the rest of dst is unchanged. */
  method CopyTo<T>(src: array<T>, dst: array<T>, at: int)
    requires src != dst && 0 <= at && at + src.Length <= dst.Length
    modifies dst
    ensures dst[..] == old(dst[..at]) + src[..] + old(dst[at + src.Length..])
    ensures at == 0 && src.Length == dst.Length ==> dst[..] == src[..]
  {
    var i := 0;
    while i < src.Length
      invariant 0 <= i <= src.Length
      invariant dst[..] == old(dst[..at]) + src[..i] + old(dst[at + i..])
    {
      dst[at + i] := src[i];
      i := i + 1;
      assert src[..i] == src[..i - 1] + [src[i - 1]];
    }
    if at == 0 && src.Length == dst.Length {
      assert old(dst[..at]) == [] && old(dst[at + src.Length..]) == [];
      assert dst[..] == [] + src[..] + [];
    }
  }

  /** Array.Copy: length elements of src from srcIndex on into dst from dstIndex on; the rest of dst is unchanged. */
  method Copy<T>(src: array<T>, srcIndex: int, dst: array<T>, dstIndex: int, length: int)
    requires src != dst && 0 <= length
    requires 0 <= srcIndex && srcIndex + length <= src.Length
    requires 0 <= dstIndex && dstIndex + length <= dst.Length
    modifies dst
    ensures dst[..] == old(dst[..dstIndex]) + src[srcIndex..srcIndex + length] + old(dst[dstIndex + length..])
  {
    var i := 0;
    while i < length
      invariant 0 <= i <= length
      invariant dst[..] == old(dst[..dstIndex]) + src[srcIndex..srcIndex + i] + old(dst[dstIndex + i..])
    {
      dst[dstIndex + i] := src[srcIndex + i];
      i := i + 1;
      assert src[srcIndex..srcIndex + i] == src[srcIndex..srcIndex + i - 1] + [src[srcIndex + i - 1]];
    }
  }

  /** Array.Clear over the whole array: every byte becomes 0. */
  method Clear(a: array<bv8>)
    modifies a
    ensures a[..] == Zeros(a.Length)
  {
    var i := 0;
    while i < a.Length
      invariant 0 <= i <= a.Length
      invariant a[..i] == Zeros(i) && a[i..] == old(a[i..])
    {
      a[i] := 0;
      i := i + 1;
    }
  }

  /** Array.Copy within one array: as if the source range were copied out first, so overlap is harmless. */
  method CopyWithin<T>(a: array<T>, srcIndex: int, dstIndex: int, length: int)
    requires 0 <= length && 0 <= srcIndex && srcIndex + length <= a.Length
    requires 0 <= dstIndex && dstIndex + length <= a.Length
    modifies a
    ensures a[..] == old(a[..dstIndex]) + old(a[srcIndex..srcIndex + length]) + old(a[dstIndex + length..])
  {
    if length > 0 {
      var x := a[srcIndex];
      var t := new T[length](_ => x);
      Copy(a, srcIndex, t, 0, length);
      assert t[..] == old(a[srcIndex..srcIndex + length]);
      Copy(t, 0, a, dstIndex, length);
    } else {
      assert a[..] == a[..dstIndex] + a[dstIndex..];
    }
  }

  /** Array.Copy from a buffer the caller passes (a value here) into an array. */
  method CopyIn(src: seq<bv8>, srcIndex: int, dst: array<bv8>, dstIndex: int, length: int)
    requires 0 <= length && 0 <= srcIndex && srcIndex + length <= |src|
    requires 0 <= dstIndex && dstIndex + length <= dst.Length
    modifies dst
    ensures dst[..] == old(dst[..dstIndex]) + src[srcIndex..srcIndex + length] + old(dst[dstIndex + length..])
  {
    var i := 0;
    while i < length
      invariant 0 <= i <= length
      invariant dst[..] == old(dst[..dstIndex]) + src[srcIndex..srcIndex + i] + old(dst[dstIndex + i..])
    {
      dst[dstIndex + i] := src[srcIndex + i];
      i := i + 1;
      assert src[srcIndex..srcIndex + i] == src[srcIndex..srcIndex + i - 1] + [src[srcIndex + i - 1]];
    }
  }
}

