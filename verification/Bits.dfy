/** The bits of 32-bit words, without any function of the digest: what choosing, parity, change and rotation do to
    each bit. The functions of the digest are compared with these formulas one by one, so that no proof has to look
    at the bits of more than one of them. */
module Bits {

  /** Bit k of x, from the lowest. */
  predicate Bit(x: bv32, k: bv6)
    requires k < 32
  {
    (x >> k) & 1 == 1
  }

  lemma ChoiceBits(x: bv32, y: bv32, z: bv32, k: bv6)
    requires k < 32
    ensures Bit((x & y) | (!x & z), k) == if Bit(x, k) then Bit(y, k) else Bit(z, k)
  {
  }

  lemma ChoiceByLastBits(x: bv32, y: bv32, z: bv32, k: bv6)
    requires k < 32
    ensures Bit((x & z) | (y & !z), k) == if Bit(z, k) then Bit(x, k) else Bit(y, k)
  {
  }

  lemma ParityBits(x: bv32, y: bv32, z: bv32, k: bv6)
    requires k < 32
    ensures Bit(x ^ y ^ z, k) == ((Bit(x, k) != Bit(y, k)) != Bit(z, k))
  {
  }

  lemma ChangeBits(x: bv32, y: bv32, z: bv32, k: bv6)
    requires k < 32
    ensures Bit(y ^ (x | !z), k) == (Bit(y, k) != (Bit(x, k) || !Bit(z, k)))
  {
  }

  lemma TurnBits(x: bv32, n: bv6, k: bv6)
    requires 0 < n < 32 && k < 32
    ensures Bit((x << n) | (x >> (32 - n)), k) == Bit(x, (k - n) & 31)
  {
  }
}
