/** Streaming MD5: words and bytes, the padded message, and the class that takes its input in pieces. The state
    has absorbed the whole blocks of all bytes fed so far, the buffer holds the rest, and two 32-bit counters
    hold the number of bits, so that only the concatenation of the pieces matters. */
module Md5 {
  import opened Bits
  import opened Md5Words
  import opened Memory = Bytes

  type Bytes = seq<bv8>

  const BLOCKSIZE := 64

  // ---------------------------------------------------------------- words and bytes

  function WordAt(b0: bv8, b1: bv8, b2: bv8, b3: bv8): bv32 {
    (b0 as bv32) | ((b1 as bv32) << 8) | ((b2 as bv32) << 16) | ((b3 as bv32) << 24)
  }

  function ByteOf(w: bv32, k: nat): bv8
    requires k < 4
  {
    if k == 0 then (w & 0xff) as bv8
    else if k == 1 then ((w >> 8) & 0xff) as bv8
    else if k == 2 then ((w >> 16) & 0xff) as bv8
    else ((w >> 24) & 0xff) as bv8
  }

  /** Little-endian words of bytes, a multiple of four of them. */
  function WordsOf(b: Bytes): (r: seq<bv32>)
    requires |b| % 4 == 0
    ensures |r| == |b| / 4
  {
    seq(|b| / 4, i requires 0 <= i < |b| / 4 => WordAt(b[4 * i], b[4 * i + 1], b[4 * i + 2], b[4 * i + 3]))
  }

  function BytesOf(w: seq<bv32>): (r: Bytes)
    ensures |r| == 4 * |w|
  {
    seq(4 * |w|, j requires 0 <= j < 4 * |w| => ByteOf(w[j / 4], j % 4))
  }

  lemma WordAtBytes(w: bv32)
    ensures WordAt(ByteOf(w, 0), ByteOf(w, 1), ByteOf(w, 2), ByteOf(w, 3)) == w
  {
  }

  lemma BytesOfWordAt(b0: bv8, b1: bv8, b2: bv8, b3: bv8)
    ensures var w := WordAt(b0, b1, b2, b3);
            ByteOf(w, 0) == b0 && ByteOf(w, 1) == b1 && ByteOf(w, 2) == b2 && ByteOf(w, 3) == b3
  {
  }

  /** decode and encode are mutual inverses on whole words. */
  lemma WordsInverse(w: seq<bv32>)
    ensures WordsOf(BytesOf(w)) == w
  {
    hide WordAt, ByteOf;
    var b := BytesOf(w);
    forall i | 0 <= i < |w|
      ensures WordsOf(b)[i] == w[i]
    {
      BytesOfAt(w, i);
      WordAtBytes(w[i]);
    }
  }

  lemma BytesInverse(b: Bytes)
    requires |b| % 4 == 0
    ensures BytesOf(WordsOf(b)) == b
  {
    var w := WordsOf(b);
    forall j | 0 <= j < |b|
      ensures BytesOf(w)[j] == b[j]
    {
      var i := j / 4;
      hide WordAt, ByteOf;
      assert w[i] == WordAt(b[4 * i], b[4 * i + 1], b[4 * i + 2], b[4 * i + 3]);
      BytesOfWordAt(b[4 * i], b[4 * i + 1], b[4 * i + 2], b[4 * i + 3]);
      assert j == 4 * i + j % 4;
    }
  }

  /** The loop of decode. */
  method Decode(output: array<bv32>, input: Bytes)
    requires |input| % 4 == 0 && output.Length == |input| / 4
    modifies output
    ensures output[..] == WordsOf(input)
  {
    var i, j := 0, 0;
    while j < |input|
      invariant 0 <= i <= output.Length && j == 4 * i
      invariant forall k :: 0 <= k < i ==> output[k] == WordsOf(input)[k]
    {
      output[i] := (input[j] as bv32) | ((input[j + 1] as bv32) << 8)
                   | ((input[j + 2] as bv32) << 16) | ((input[j + 3] as bv32) << 24);
      i, j := i + 1, j + 4;
    }
  }

  lemma BytesOfAt(w: seq<bv32>, i: nat)
    requires i < |w|
    ensures BytesOf(w)[4 * i] == ByteOf(w[i], 0) && BytesOf(w)[4 * i + 1] == ByteOf(w[i], 1)
    ensures BytesOf(w)[4 * i + 2] == ByteOf(w[i], 2) && BytesOf(w)[4 * i + 3] == ByteOf(w[i], 3)
  {
    hide ByteOf;
    assert (4 * i) / 4 == i && (4 * i + 1) / 4 == i && (4 * i + 2) / 4 == i && (4 * i + 3) / 4 == i;
  }

  /** The loop of encode. */
  method Encode(output: array<bv8>, input: seq<bv32>)
    requires output.Length == 4 * |input|
    modifies output
    ensures output[..] == BytesOf(input)
  {
    hide ByteOf;
    var i, j := 0, 0;
    while j < output.Length
      invariant 0 <= i <= |input| && j == 4 * i
      invariant forall k :: 0 <= k < j ==> output[k] == BytesOf(input)[k]
    {
      var w := input[i];
      output[j] := ByteOf(w, 0);
      output[j + 1] := ByteOf(w, 1);
      output[j + 2] := ByteOf(w, 2);
      output[j + 3] := ByteOf(w, 3);
      BytesOfAt(input, i);
      i, j := i + 1, j + 4;
    }
  }

  // ---------------------------------------------------------------- the digest of a message

  /** One block mixed into the state. */
  function Compress(w: Words, block: Bytes): Words
    requires |block| == BLOCKSIZE
  {
    Mixed(w, WordsOf(block))
  }

  /** All whole blocks of s mixed into the state, in order. */
  function Absorb(w: Words, s: Bytes): Words
    decreases |s|
  {
    if |s| < BLOCKSIZE then w else Absorb(Compress(w, s[..BLOCKSIZE]), s[BLOCKSIZE..])
  }

  const INITIAL := Words(0x67452301, 0xefcdab89, 0x98badcfe, 0x10325476)

  /** Padding of a message of n bytes: a one bit, then zeros, up to 56 bytes modulo 64. */
  function PadLen(n: nat): (p: nat)
    ensures 1 <= p <= 64 && (n + p) % 64 == 56
  {
    if n % 64 < 56 then 56 - n % 64 else 120 - n % 64
  }

  function Padding(p: nat): (r: Bytes)
    requires p > 0
    ensures |r| == p
  {
    [0x80] + seq(p - 1, _ => 0)
  }

  /** The initial registers are the bytes 01 23 45 67 and so on, low-order byte first (section 3.3). */
  lemma InitialBytes()
    ensures WordsOf([0x01, 0x23, 0x45, 0x67, 0x89, 0xab, 0xcd, 0xef, 0xfe, 0xdc, 0xba, 0x98, 0x76, 0x54, 0x32, 0x10])
         == [INITIAL.a, INITIAL.b, INITIAL.c, INITIAL.d]
  {
  }

  /** The padding is one bit, the highest of its first byte, and then zeros, up to 448 bits modulo 512; it is
      the shortest such (section 3.1). Behind it stands the number of bits, low-order word first (section 3.2). */
  lemma PaddedShape(s: Bytes)
    ensures var b, n, p := Padded(s), |s|, PadLen(|s|);
            && |b| == n + p + 8 && |b| % 64 == 0 && 1 <= p <= 64
            && b[..n] == s && b[n] == 0x80
            && (forall k :: n < k < n + p ==> b[k] == 0)
            && WordsOf(b[n + p..]) == [(8 * n % 0x1_0000_0000) as bv32, (8 * n / 0x1_0000_0000 % 0x1_0000_0000) as bv32]
  {
    var b, n, p := Padded(s), |s|, PadLen(|s|);
    var c := BytesOf(CountWords(n));
    assert b == s + Padding(p) + c;
    assert b[n + p..] == c;
    WordsInverse(CountWords(n));
  }

  /** Bit j of byte k of a word is its bit 8 * k + j. */
  lemma ByteBits(w: bv32, j: bv6)
    requires j < 8
    ensures Bit(ByteOf(w, 0) as bv32, j) == Bit(w, j) && Bit(ByteOf(w, 1) as bv32, j) == Bit(w, j + 8)
    ensures Bit(ByteOf(w, 2) as bv32, j) == Bit(w, j + 16) && Bit(ByteOf(w, 3) as bv32, j) == Bit(w, j + 24)
  {
  }

  /** The number of bits as two words, low word first. */
  function CountWords(n: nat): (r: seq<bv32>)
    ensures |r| == 2
  {
    [(8 * n % TWO_TO_THE_32) as bv32, (8 * n / TWO_TO_THE_32 % TWO_TO_THE_32) as bv32]
  }

  /** Sections 3.1 and 3.2 of RFC 1321. */
  function Padded(s: Bytes): (r: Bytes)
    ensures |r| % BLOCKSIZE == 0
  {
    var p := PadLen(|s|);
    assert (|s| + p + 8) % 64 == 0;
    s + Padding(p) + BytesOf(CountWords(|s|))
  }

  function Digest(s: Bytes): Bytes {
    var w := Absorb(INITIAL, Padded(s));
    BytesOf([w.a, w.b, w.c, w.d])
  }

  // ---------------------------------------------------------------- streaming

  /** Whole blocks first, whatever follows. */
  lemma {:induction false} AbsorbAppend(w: Words, a: Bytes, b: Bytes)
    requires |a| % BLOCKSIZE == 0
    ensures Absorb(w, a + b) == Absorb(Absorb(w, a), b)
    decreases |a|
  {
    hide Compress;
    if a == [] {
      assert a + b == b;
    } else {
      assert (a + b)[..BLOCKSIZE] == a[..BLOCKSIZE] && (a + b)[BLOCKSIZE..] == a[BLOCKSIZE..] + b;
      AbsorbAppend(Compress(w, a[..BLOCKSIZE]), a[BLOCKSIZE..], b);
    }
  }

  lemma AbsorbBlock(w: Words, block: Bytes)
    requires |block| == BLOCKSIZE
    ensures Absorb(w, block) == Compress(w, block)
  {
    hide Compress;
    assert block[..BLOCKSIZE] == block && block[BLOCKSIZE..] == [];
  }

  lemma AbsorbShort(w: Words, s: Bytes)
    requires |s| < BLOCKSIZE
    ensures Absorb(w, s) == w
  {
  }

  lemma DivAdd(x: nat, y: nat)
    ensures var carry := if x % TWO_TO_THE_32 + y % TWO_TO_THE_32 >= TWO_TO_THE_32 then 1 else 0;
            && (x + y) / TWO_TO_THE_32 == x / TWO_TO_THE_32 + y / TWO_TO_THE_32 + carry
            && (x + y) % TWO_TO_THE_32 == x % TWO_TO_THE_32 + y % TWO_TO_THE_32 - carry * TWO_TO_THE_32
            && (x % TWO_TO_THE_32 + y % TWO_TO_THE_32) % TWO_TO_THE_32 == (x + y) % TWO_TO_THE_32
  {
  }

  lemma ModAdd(a: nat, b: nat)
    ensures (a % TWO_TO_THE_32 + b) % TWO_TO_THE_32 == (a + b) % TWO_TO_THE_32
  {
  }

  /** The low word after counting len more bytes, and the high word with the carry, which is found
      by comparing, count the bits of n + len bytes modulo 2^64. */
  function CountLow(lo: nat, len: nat): nat {
    (lo + 8 * len % TWO_TO_THE_32) % TWO_TO_THE_32
  }

  function CountHigh(lo: nat, hi: nat, len: nat): nat {
    var carried := if CountLow(lo, len) < 8 * len % TWO_TO_THE_32 then (hi + 1) % TWO_TO_THE_32 else hi;
    (carried + len / 0x2000_0000) % TWO_TO_THE_32
  }

  lemma CountAdd(n: nat, len: nat)
    ensures var lo, hi := 8 * n % TWO_TO_THE_32, 8 * n / TWO_TO_THE_32 % TWO_TO_THE_32;
            && CountLow(lo, len) == 8 * (n + len) % TWO_TO_THE_32
            && CountHigh(lo, hi, len) == 8 * (n + len) / TWO_TO_THE_32 % TWO_TO_THE_32
  {
    var x, y := 8 * n, 8 * len;
    DivAdd(x, y);
    assert y / TWO_TO_THE_32 == len / 0x2000_0000;
    ModAdd(x / TWO_TO_THE_32, 1);
    ModAdd(x / TWO_TO_THE_32 + 1, len / 0x2000_0000);
    ModAdd(x / TWO_TO_THE_32, len / 0x2000_0000);
  }

  // ---------------------------------------------------------------- the object

  /** Length of the whole blocks in n bytes. */
  function WholeLen(n: nat): nat {
    n - n % BLOCKSIZE
  }

  lemma AbsorbNext(s: Bytes, block: Bytes)
    requires |s| % BLOCKSIZE == 0 && |block| == BLOCKSIZE
    ensures Absorb(INITIAL, s + block) == Compress(Absorb(INITIAL, s), block)
  {
    AbsorbAppend(INITIAL, s, block);
    AbsorbBlock(Absorb(INITIAL, s), block);
  }

  lemma JoinRest(fed: Bytes, w: nat, first: Bytes)
    requires w <= |fed|
    ensures fed[..w] + (fed[w..] + first) == fed + first
  {
  }

  lemma JoinNext(fed: Bytes, input: Bytes, i: nat)
    requires i + BLOCKSIZE <= |input|
    ensures fed + input[..i] + input[i..i + BLOCKSIZE] == fed + input[..i + BLOCKSIZE]
  {
  }

  lemma WholeRest(n: nat)
    ensures WholeLen(n) + n % BLOCKSIZE == n
  {
  }

  lemma RestAfterBlocks(fed: Bytes, input: Bytes, i: nat)
    requires i <= |input| < i + BLOCKSIZE && (|fed| + i) % BLOCKSIZE == 0
    ensures WholeLen(|fed + input|) == |fed| + i
    ensures (fed + input)[..|fed| + i] == fed + input[..i] && (fed + input)[|fed| + i..] == input[i..]
  {
    ModStep(|fed| + i, |input| - i);
  }

  lemma ModStep(a: nat, b: nat)
    requires a % BLOCKSIZE == 0 && b < BLOCKSIZE
    ensures (a + b) % BLOCKSIZE == b
  {
  }

  lemma RestWithoutBlocks(fed: Bytes, input: Bytes)
    requires |fed| % BLOCKSIZE + |input| < BLOCKSIZE
    ensures var w := WholeLen(|fed|);
            && WholeLen(|fed + input|) == w
            && (fed + input)[..w] == fed[..w] && (fed + input)[w..] == fed[w..] + input
  {
    ModStep(WholeLen(|fed|), |fed| % BLOCKSIZE + |input|);
  }

  class MD5 {
    var finalized: bool
    var count0: nat
    var count1: nat
    var state: Words
    var digest: Bytes
    const buffer: array<bv8>

    /** All input so far. */
    ghost var fed: Bytes

    /** The state has absorbed the whole blocks, the buffer holds the rest, and the two counters are
        the number of bits modulo 2^64. */
    ghost predicate Valid()
      reads this, buffer
    {
      var n, w := |fed|, WholeLen(|fed|);
      && !finalized
      && buffer.Length == BLOCKSIZE
      && count0 == 8 * n % TWO_TO_THE_32
      && count1 == 8 * n / TWO_TO_THE_32 % TWO_TO_THE_32
      && state == Absorb(INITIAL, fed[..w])
      && buffer[..n - w] == fed[w..]
    }

    constructor ()
      ensures Valid() && fed == [] && fresh(buffer)
    {
      buffer := new bv8[BLOCKSIZE];
      finalized, count0, count1, state, digest := false, 0, 0, INITIAL, [];
      fed := [];
      new;
      AbsorbShort(INITIAL, []);
    }

    /** The digest of a text given at once. */
    constructor FromText(text: Bytes)
      requires |text| + BLOCKSIZE < TWO_TO_THE_32
      ensures finalized && digest == Digest(text)
    {
      buffer := new bv8[BLOCKSIZE];
      finalized, count0, count1, state, digest := false, 0, 0, INITIAL, [];
      fed := [];
      new;
      AbsorbShort(INITIAL, []);
      Update(text);
      assert [] + text == text;
      Finalize();
    }

    method Transform(block: Bytes)
      requires |block| == BLOCKSIZE
      modifies `state
      ensures state == Compress(old(state), block)
    {
      var x := new bv32[16];
      Decode(x, block);
      state := MixBlock(state, x[..]);
    }

    /** Counters that hold the bits of n bytes modulo 2^64 then hold those of length more bytes. */
    method Count(length: nat, ghost n: nat)
      requires length < TWO_TO_THE_32
      requires count0 == 8 * n % TWO_TO_THE_32 && count1 == 8 * n / TWO_TO_THE_32 % TWO_TO_THE_32
      modifies `count0, `count1
      ensures count0 == 8 * (n + length) % TWO_TO_THE_32
      ensures count1 == 8 * (n + length) / TWO_TO_THE_32 % TWO_TO_THE_32
    {
      CountAdd(n, length);
      var bits := 8 * length % TWO_TO_THE_32;
      count0 := (count0 + bits) % TWO_TO_THE_32;
      if count0 < bits {
        count1 := (count1 + 1) % TWO_TO_THE_32;
      }
      count1 := (count1 + length / 0x2000_0000) % TWO_TO_THE_32;
    }

    /** Copies bytes in behind the first index bytes of the buffer. */
    method Fill(index: nat, src: Bytes)
      requires index + |src| <= buffer.Length
      modifies buffer
      ensures buffer[..index + |src|] == old(buffer[..index]) + src
    {
      CopyInto(buffer, index, src);
    }

    /** Mixes in the block of input at i. */
    method MixAt(input: Bytes, i: nat)
      requires i + BLOCKSIZE <= |input| && (|fed| + i) % BLOCKSIZE == 0
      requires state == Absorb(INITIAL, fed + input[..i])
      modifies `state
      ensures state == Absorb(INITIAL, fed + input[..i + BLOCKSIZE])
    {
      hide Compress, Absorb;
      ghost var done, block := fed + input[..i], input[i..i + BLOCKSIZE];
      AbsorbNext(done, block);
      JoinNext(fed, input, i);
      Transform(input[i..i + BLOCKSIZE]);
    }

    /** Mixes in every block that input completes; i is where the rest of input starts. */
    method Blocks(index: nat, input: Bytes) returns (i: nat)
      requires buffer.Length == BLOCKSIZE && index == |fed| % BLOCKSIZE
      requires buffer[..index] == fed[WholeLen(|fed|)..]
      requires state == Absorb(INITIAL, fed[..WholeLen(|fed|)])
      requires |input| >= BLOCKSIZE - index
      modifies `state, buffer
      ensures i <= |input| < i + BLOCKSIZE && (|fed| + i) % BLOCKSIZE == 0
      ensures state == Absorb(INITIAL, fed + input[..i])
    {
      hide Compress, Absorb;
      var firstpart := BLOCKSIZE - index;
      Fill(index, input[..firstpart]);
      assert buffer[..] == buffer[..BLOCKSIZE] == fed[WholeLen(|fed|)..] + input[..firstpart];
      JoinRest(fed, WholeLen(|fed|), input[..firstpart]);
      Transform(buffer[..]);
      AbsorbNext(fed[..WholeLen(|fed|)], buffer[..]);
      i := firstpart;
      while i + BLOCKSIZE <= |input|
        invariant i <= |input| && (|fed| + i) % BLOCKSIZE == 0
        invariant state == Absorb(INITIAL, fed + input[..i])
        invariant fed == old(fed)
      {
        MixAt(input, i);
        i := i + BLOCKSIZE;
      }
    }

    /** Mixes in every block that input completes and keeps the rest in the buffer. */
    method Feed(index: nat, input: Bytes)
      requires buffer.Length == BLOCKSIZE && index == |fed| % BLOCKSIZE
      requires buffer[..index] == fed[WholeLen(|fed|)..]
      requires state == Absorb(INITIAL, fed[..WholeLen(|fed|)])
      modifies `state, buffer
      ensures var all, w := fed + input, WholeLen(|fed + input|);
              state == Absorb(INITIAL, all[..w]) && |all| - w < BLOCKSIZE && buffer[..|all| - w] == all[w..]
    {
      hide Absorb, WholeLen;
      var i, at := 0, index;
      WholeRest(|fed|);
      if |input| >= BLOCKSIZE - index {
        i := Blocks(index, input);
        at := 0;
        RestAfterBlocks(fed, input, i);
      } else {
        RestWithoutBlocks(fed, input);
      }
      Fill(at, input[i..]);
    }

    /** Takes in more input, of any length for which i + BLOCKSIZE is a 32-bit number. */
    method Update(input: Bytes)
      requires Valid() && |input| + BLOCKSIZE < TWO_TO_THE_32
      modifies `count0, `count1, `state, `fed, buffer
      ensures Valid() && fed == old(fed) + input
    {
      hide Absorb, WholeLen;
      var index := count0 / 8 % BLOCKSIZE;
      CountIndex(|fed|);
      WholeRest(|fed|);
      Count(|input|, |fed|);
      Feed(index, input);
      fed := fed + input;
    }

    method EncodeCount() returns (bits: Bytes)
      requires Valid()
      ensures bits == BytesOf(CountWords(|fed|)) && |bits| == 8
    {
      hide BytesOf;
      var out := new bv8[8];
      Encode(out, [count0 as bv32, count1 as bv32]);
      return out[..];
    }

    method EncodeState() returns (out: Bytes)
      ensures out == BytesOf([state.a, state.b, state.c, state.d])
    {
      hide BytesOf;
      var bytes := new bv8[16];
      Encode(bytes, [state.a, state.b, state.c, state.d]);
      return bytes[..];
    }

    /** Pads the input, mixes in the padding and the bit count, and writes the digest; done once. */
    method Finalize()
      requires finalized || Valid()
      modifies this, buffer
      ensures finalized
      ensures old(finalized) ==> digest == old(digest)
      ensures !old(finalized) ==> digest == Digest(old(fed))
    {
      hide Absorb, Padding, PadLen, BytesOf, Padded, Digest, CountWords;
      if !finalized {
        ghost var msg := fed;
        var bits := EncodeCount();
        CountIndex(|fed|);
        var index := count0 / 8 % 64;
        var padLen := if index < 56 then 56 - index else 120 - index;
        PadLenOf(|fed|);
        Update(Padding(padLen));
        Update(bits);
        FinalState(msg, padLen);
        assert fed == msg + Padding(padLen) + bits;
        assert fed[..|fed|] == fed;
        digest := EncodeState();
        forall i | 0 <= i < buffer.Length {
          buffer[i] := 0;
        }
        count0, count1 := 0, 0;
        finalized := true;
      }
    }
  }

  lemma FinalState(msg: Bytes, p: nat)
    requires p == PadLen(|msg|)
    ensures var all := msg + Padding(p) + BytesOf(CountWords(|msg|));
            var w := Absorb(INITIAL, all);
            && |all| % BLOCKSIZE == 0
            && Digest(msg) == BytesOf([w.a, w.b, w.c, w.d])
  {
    hide Absorb;
    assert Padded(msg) == msg + Padding(p) + BytesOf(CountWords(|msg|));
  }

  lemma PadLenOf(n: nat)
    ensures PadLen(n) == if n % 64 < 56 then 56 - n % 64 else 120 - n % 64
  {
  }

  lemma ModUnique(x: nat, q: nat, r: nat)
    requires x == q * TWO_TO_THE_32 + r && r < TWO_TO_THE_32
    ensures x % TWO_TO_THE_32 == r
  {
  }

  lemma ModShift(k: nat, r: nat)
    ensures (k * 64 + r) % BLOCKSIZE == r % BLOCKSIZE
  {
  }

  lemma CountIndex(n: nat)
    ensures 8 * n % TWO_TO_THE_32 / 8 % BLOCKSIZE == n % BLOCKSIZE
  {
    var q, r := n / 0x2000_0000, n % 0x2000_0000;
    assert 8 * n == q * TWO_TO_THE_32 + 8 * r;
    ModUnique(8 * n, q, 8 * r);
    assert n == q * 0x80_0000 * 64 + r;
    ModShift(q * 0x80_0000, r);
  }
}