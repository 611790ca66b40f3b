/** Bytes, copying them into a buffer element by element, and 32-bit lengths as a little-endian host stores them
    in memory, in four bytes that read back as the same number. */
module Bytes {

  type Byte = x: int | 0 <= x < 256

  const TWO_TO_THE_32 := 0x1_0000_0000

  /** memcpy into dst at offset off. */
  method CopyInto<T>(dst: array<T>, off: nat, src: seq<T>)
    requires off + |src| <= dst.Length
    modifies dst
    ensures forall k :: 0 <= k < dst.Length ==>
              dst[k] == if off <= k < off + |src| then src[k - off] else old(dst[k])
  {
    for i := 0 to |src|
      invariant forall k :: 0 <= k < dst.Length ==>
                  dst[k] == if off <= k < off + i then src[k - off] else old(dst[k])
    {
      dst[off + i] := src[i];
    }
  }

  lemma Overwritten<T>(b: seq<T>, c: seq<T>, s: seq<T>)
    requires |s| <= |b| == |c|
    requires forall k :: 0 <= k < |b| ==> c[k] == if k < |s| then s[k] else b[k]
    ensures c == s + b[|s|..]
  {
  }

  /** A 32-bit number as a little-endian host keeps it in memory. */
  function Le32(n: nat): (r: seq<Byte>)
    requires n < TWO_TO_THE_32
    ensures |r| == 4
  {
    var a := n / 256;
    var b := a / 256;
    [n % 256, a % 256, b % 256, b / 256]
  }

  function FromLe32(b: seq<Byte>): (n: nat)
    requires |b| == 4
    ensures n < TWO_TO_THE_32
  {
    var b0: int, b1: int, b2: int, b3: int := b[0], b[1], b[2], b[3];
    b0 + 256 * b1 + 65536 * b2 + 16777216 * b3
  }

  lemma Le32Inverse(n: nat)
    requires n < TWO_TO_THE_32
    ensures FromLe32(Le32(n)) == n
  {
  }
}
