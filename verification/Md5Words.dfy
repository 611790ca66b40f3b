/** MD5: the compression function of section 3.4 of RFC 1321 by tables, the unrolled steps of the program, and
    that both are the same for every state and block. */
module Md5Words {
  import opened Bits

  // ---------------------------------------------------------------- the four auxiliary functions

  function F1(x: bv32, y: bv32, z: bv32): bv32 { (x & y) | (!x & z) }

  function G1(x: bv32, y: bv32, z: bv32): bv32 { (x & z) | (y & !z) }

  function H1(x: bv32, y: bv32, z: bv32): bv32 { x ^ y ^ z }

  function I1(x: bv32, y: bv32, z: bv32): bv32 { y ^ (x | !z) }

  function RotateLeft(x: bv32, n: bv6): bv32
    requires 0 < n < 32
  {
    (x << n) | (x >> (32 - n))
  }

  /** The definitions of section 3.4 of RFC 1321, for each bit of all words: x selects from y and z, z selects from
      x and y, the parity of the three, and y changed where x is set or z is not. */
  lemma AuxiliaryBits(x: bv32, y: bv32, z: bv32, k: bv6)
    requires k < 32
    ensures Bit(F1(x, y, z), k) == if Bit(x, k) then Bit(y, k) else Bit(z, k)
    ensures Bit(G1(x, y, z), k) == if Bit(z, k) then Bit(x, k) else Bit(y, k)
    ensures Bit(H1(x, y, z), k) == ((Bit(x, k) != Bit(y, k)) != Bit(z, k))
    ensures Bit(I1(x, y, z), k) == (Bit(y, k) != (Bit(x, k) || !Bit(z, k)))
  {
    hide Bit, F1, G1, H1, I1;
    F1Bits(x, y, z, k);
    G1Bits(x, y, z, k);
    H1Bits(x, y, z, k);
    I1Bits(x, y, z, k);
  }

  lemma F1Bits(x: bv32, y: bv32, z: bv32, k: bv6)
    requires k < 32
    ensures Bit(F1(x, y, z), k) == if Bit(x, k) then Bit(y, k) else Bit(z, k)
  {
    hide Bit;
    ChoiceBits(x, y, z, k);
  }

  lemma G1Bits(x: bv32, y: bv32, z: bv32, k: bv6)
    requires k < 32
    ensures Bit(G1(x, y, z), k) == if Bit(z, k) then Bit(x, k) else Bit(y, k)
  {
    hide Bit;
    ChoiceByLastBits(x, y, z, k);
  }

  lemma H1Bits(x: bv32, y: bv32, z: bv32, k: bv6)
    requires k < 32
    ensures Bit(H1(x, y, z), k) == ((Bit(x, k) != Bit(y, k)) != Bit(z, k))
  {
    hide Bit;
    ParityBits(x, y, z, k);
  }

  lemma I1Bits(x: bv32, y: bv32, z: bv32, k: bv6)
    requires k < 32
    ensures Bit(I1(x, y, z), k) == (Bit(y, k) != (Bit(x, k) || !Bit(z, k)))
  {
    hide Bit;
    ChangeBits(x, y, z, k);
  }

  /** Bit k of the rotated word comes from bit k - n modulo 32. */
  lemma RotateBits(x: bv32, n: bv6, k: bv6)
    requires 0 < n < 32 && k < 32
    ensures Bit(RotateLeft(x, n), k) == Bit(x, (k - n) & 31)
  {
    hide Bit;
    TurnBits(x, n, k);
  }

  // ---------------------------------------------------------------- one step of each round

  function FF1(a: bv32, b: bv32, c: bv32, d: bv32, x: bv32, s: bv6, ac: bv32): bv32
    requires 0 < s < 32
  {
    RotateLeft(a + F1(b, c, d) + x + ac, s) + b
  }

  function GG1(a: bv32, b: bv32, c: bv32, d: bv32, x: bv32, s: bv6, ac: bv32): bv32
    requires 0 < s < 32
  {
    RotateLeft(a + G1(b, c, d) + x + ac, s) + b
  }

  function HH1(a: bv32, b: bv32, c: bv32, d: bv32, x: bv32, s: bv6, ac: bv32): bv32
    requires 0 < s < 32
  {
    RotateLeft(a + H1(b, c, d) + x + ac, s) + b
  }

  function II1(a: bv32, b: bv32, c: bv32, d: bv32, x: bv32, s: bv6, ac: bv32): bv32
    requires 0 < s < 32
  {
    RotateLeft(a + I1(b, c, d) + x + ac, s) + b
  }

  // ---------------------------------------------------------------- the table-driven definition

  datatype Words = Words(a: bv32, b: bv32, c: bv32, d: bv32)

  /** Which word of the block step i of a round uses. */
  function WordIndex(round: nat, i: nat): (k: nat)
    ensures k < 16
  {
    if round == 0 then i % 16
    else if round == 1 then (5 * i + 1) % 16
    else if round == 2 then (3 * i + 5) % 16
    else 7 * i % 16
  }

  /** By how much step i of a round rotates. */
  function Shift(round: nat, i: nat): (s: bv6)
    ensures 0 < s < 32
  {
    var j := i % 4;
    if round == 0 then (if j == 0 then 7 else if j == 1 then 12 else if j == 2 then 17 else 22)
    else if round == 1 then (if j == 0 then 5 else if j == 1 then 9 else if j == 2 then 14 else 20)
    else if round == 2 then (if j == 0 then 4 else if j == 1 then 11 else if j == 2 then 16 else 23)
    else (if j == 0 then 6 else if j == 1 then 10 else if j == 2 then 15 else 21)
  }

  /** The constants T[1..64] of section 3.4 of RFC 1321, by round. */
  const T0: seq<bv32> := [
    0xd76aa478, 0xe8c7b756, 0x242070db, 0xc1bdceee,
    0xf57c0faf, 0x4787c62a, 0xa8304613, 0xfd469501,
    0x698098d8, 0x8b44f7af, 0xffff5bb1, 0x895cd7be,
    0x6b901122, 0xfd987193, 0xa679438e, 0x49b40821]

  const T1: seq<bv32> := [
    0xf61e2562, 0xc040b340, 0x265e5a51, 0xe9b6c7aa,
    0xd62f105d, 0x02441453, 0xd8a1e681, 0xe7d3fbc8,
    0x21e1cde6, 0xc33707d6, 0xf4d50d87, 0x455a14ed,
    0xa9e3e905, 0xfcefa3f8, 0x676f02d9, 0x8d2a4c8a]

  const T2: seq<bv32> := [
    0xfffa3942, 0x8771f681, 0x6d9d6122, 0xfde5380c,
    0xa4beea44, 0x4bdecfa9, 0xf6bb4b60, 0xbebfbc70,
    0x289b7ec6, 0xeaa127fa, 0xd4ef3085, 0x04881d05,
    0xd9d4d039, 0xe6db99e5, 0x1fa27cf8, 0xc4ac5665]

  const T3: seq<bv32> := [
    0xf4292244, 0x432aff97, 0xab9423a7, 0xfc93a039,
    0x655b59c3, 0x8f0ccc92, 0xffeff47d, 0x85845dd1,
    0x6fa87e4f, 0xfe2ce6e0, 0xa3014314, 0x4e0811a1,
    0xf7537e82, 0xbd3af235, 0x2ad7d2bb, 0xeb86d391]

  function Sine(round: nat, i: nat): bv32
    requires i < 16
  {
    if round == 0 then T0[i] else if round == 1 then T1[i] else if round == 2 then T2[i] else T3[i]
  }

  function Mix(round: nat, a: bv32, b: bv32, c: bv32, d: bv32, x: bv32, s: bv6, ac: bv32): bv32
    requires 0 < s < 32
  {
    if round == 0 then FF1(a, b, c, d, x, s, ac)
    else if round == 1 then GG1(a, b, c, d, x, s, ac)
    else if round == 2 then HH1(a, b, c, d, x, s, ac)
    else II1(a, b, c, d, x, s, ac)
  }

  /** One operation: the first register is replaced, then the registers change places. */
  function Operation(round: nat, i: nat, w: Words, x: seq<bv32>): Words
    requires |x| == 16 && i < 16
  {
    Words(w.d, Mix(round, w.a, w.b, w.c, w.d, x[WordIndex(round, i)], Shift(round, i), Sine(round, i)), w.b, w.c)
  }

  /** The first n operations of a round. */
  function Operations(round: nat, n: nat, w: Words, x: seq<bv32>): Words
    requires |x| == 16 && n <= 16
  {
    if n == 0 then w else Operation(round, n - 1, Operations(round, n - 1, w, x), x)
  }

  function AddWords(w: Words, r: Words): Words {
    Words(w.a + r.a, w.b + r.b, w.c + r.c, w.d + r.d)
  }

  /** The four rounds, and the addition of what was there before. */
  function Mixed(w: Words, x: seq<bv32>): Words
    requires |x| == 16
  {
    var r := Operations(3, 16, Operations(2, 16, Operations(1, 16, Operations(0, 16, w, x), x), x), x);
    AddWords(w, r)
  }

  // ---------------------------------------------------------------- the unrolled rounds

  lemma FourOperations(round: nat, i: nat, w0: Words, x: seq<bv32>, a: bv32, b: bv32, c: bv32, d: bv32, p: bv32,
                       q: bv32, r: bv32, s: bv32)
    requires |x| == 16 && i + 4 <= 16 && i % 4 == 0
    requires Operations(round, i, w0, x) == Words(a, b, c, d)
    requires p == Mix(round, a, b, c, d, x[WordIndex(round, i)], Shift(round, i), Sine(round, i))
    requires q == Mix(round, d, p, b, c, x[WordIndex(round, i + 1)], Shift(round, i + 1), Sine(round, i + 1))
    requires r == Mix(round, c, q, p, b, x[WordIndex(round, i + 2)], Shift(round, i + 2), Sine(round, i + 2))
    requires s == Mix(round, b, r, q, p, x[WordIndex(round, i + 3)], Shift(round, i + 3), Sine(round, i + 3))
    ensures Operations(round, i + 4, w0, x) == Words(p, s, r, q)
  {
    hide Mix, WordIndex, Shift, Sine;
    assert Operations(round, i + 1, w0, x) == Words(d, p, b, c);
    assert Operations(round, i + 2, w0, x) == Words(c, q, p, b);
    assert Operations(round, i + 3, w0, x) == Words(b, r, q, p);
  }

  lemma Sines1_0()
    ensures Sine(0, 0) == 0xd76aa478 && Sine(0, 1) == 0xe8c7b756
    ensures Sine(0, 2) == 0x242070db && Sine(0, 3) == 0xc1bdceee
  {
  }

  method Round1_0(w: Words, ghost w0: Words, x: seq<bv32>) returns (v: Words)
    requires |x| == 16 && Operations(0, 0, w0, x) == w
    ensures v == Operations(0, 4, w0, x)
  {
    hide FF1, GG1, HH1, II1, Operations, Sine;
    var a, b, c, d := w.a, w.b, w.c, w.d;
    a := FF1(a, b, c, d, x[0], 7, 0xd76aa478);
    d := FF1(d, a, b, c, x[1], 12, 0xe8c7b756);
    c := FF1(c, d, a, b, x[2], 17, 0x242070db);
    b := FF1(b, c, d, a, x[3], 22, 0xc1bdceee);
    Sines1_0();
    FourOperations(0, 0, w0, x, w.a, w.b, w.c, w.d, a, d, c, b);
    v := Words(a, b, c, d);
  }

  lemma Sines1_4()
    ensures Sine(0, 4) == 0xf57c0faf && Sine(0, 5) == 0x4787c62a
    ensures Sine(0, 6) == 0xa8304613 && Sine(0, 7) == 0xfd469501
  {
  }

  method Round1_4(w: Words, ghost w0: Words, x: seq<bv32>) returns (v: Words)
    requires |x| == 16 && Operations(0, 4, w0, x) == w
    ensures v == Operations(0, 8, w0, x)
  {
    hide FF1, GG1, HH1, II1, Operations, Sine;
    var a, b, c, d := w.a, w.b, w.c, w.d;
    a := FF1(a, b, c, d, x[4], 7, 0xf57c0faf);
    d := FF1(d, a, b, c, x[5], 12, 0x4787c62a);
    c := FF1(c, d, a, b, x[6], 17, 0xa8304613);
    b := FF1(b, c, d, a, x[7], 22, 0xfd469501);
    Sines1_4();
    FourOperations(0, 4, w0, x, w.a, w.b, w.c, w.d, a, d, c, b);
    v := Words(a, b, c, d);
  }

  lemma Sines1_8()
    ensures Sine(0, 8) == 0x698098d8 && Sine(0, 9) == 0x8b44f7af
    ensures Sine(0, 10) == 0xffff5bb1 && Sine(0, 11) == 0x895cd7be
  {
  }

  method Round1_8(w: Words, ghost w0: Words, x: seq<bv32>) returns (v: Words)
    requires |x| == 16 && Operations(0, 8, w0, x) == w
    ensures v == Operations(0, 12, w0, x)
  {
    hide FF1, GG1, HH1, II1, Operations, Sine;
    var a, b, c, d := w.a, w.b, w.c, w.d;
    a := FF1(a, b, c, d, x[8], 7, 0x698098d8);
    d := FF1(d, a, b, c, x[9], 12, 0x8b44f7af);
    c := FF1(c, d, a, b, x[10], 17, 0xffff5bb1);
    b := FF1(b, c, d, a, x[11], 22, 0x895cd7be);
    Sines1_8();
    FourOperations(0, 8, w0, x, w.a, w.b, w.c, w.d, a, d, c, b);
    v := Words(a, b, c, d);
  }

  lemma Sines1_12()
    ensures Sine(0, 12) == 0x6b901122 && Sine(0, 13) == 0xfd987193
    ensures Sine(0, 14) == 0xa679438e && Sine(0, 15) == 0x49b40821
  {
  }

  method Round1_12(w: Words, ghost w0: Words, x: seq<bv32>) returns (v: Words)
    requires |x| == 16 && Operations(0, 12, w0, x) == w
    ensures v == Operations(0, 16, w0, x)
  {
    hide FF1, GG1, HH1, II1, Operations, Sine;
    var a, b, c, d := w.a, w.b, w.c, w.d;
    a := FF1(a, b, c, d, x[12], 7, 0x6b901122);
    d := FF1(d, a, b, c, x[13], 12, 0xfd987193);
    c := FF1(c, d, a, b, x[14], 17, 0xa679438e);
    b := FF1(b, c, d, a, x[15], 22, 0x49b40821);
    Sines1_12();
    FourOperations(0, 12, w0, x, w.a, w.b, w.c, w.d, a, d, c, b);
    v := Words(a, b, c, d);
  }

  lemma Sines2_0()
    ensures Sine(1, 0) == 0xf61e2562 && Sine(1, 1) == 0xc040b340
    ensures Sine(1, 2) == 0x265e5a51 && Sine(1, 3) == 0xe9b6c7aa
  {
  }

  method Round2_0(w: Words, ghost w0: Words, x: seq<bv32>) returns (v: Words)
    requires |x| == 16 && Operations(1, 0, w0, x) == w
    ensures v == Operations(1, 4, w0, x)
  {
    hide FF1, GG1, HH1, II1, Operations, Sine;
    var a, b, c, d := w.a, w.b, w.c, w.d;
    a := GG1(a, b, c, d, x[1], 5, 0xf61e2562);
    d := GG1(d, a, b, c, x[6], 9, 0xc040b340);
    c := GG1(c, d, a, b, x[11], 14, 0x265e5a51);
    b := GG1(b, c, d, a, x[0], 20, 0xe9b6c7aa);
    Sines2_0();
    FourOperations(1, 0, w0, x, w.a, w.b, w.c, w.d, a, d, c, b);
    v := Words(a, b, c, d);
  }

  lemma Sines2_4()
    ensures Sine(1, 4) == 0xd62f105d && Sine(1, 5) == 0x02441453
    ensures Sine(1, 6) == 0xd8a1e681 && Sine(1, 7) == 0xe7d3fbc8
  {
  }

  method Round2_4(w: Words, ghost w0: Words, x: seq<bv32>) returns (v: Words)
    requires |x| == 16 && Operations(1, 4, w0, x) == w
    ensures v == Operations(1, 8, w0, x)
  {
    hide FF1, GG1, HH1, II1, Operations, Sine;
    var a, b, c, d := w.a, w.b, w.c, w.d;
    a := GG1(a, b, c, d, x[5], 5, 0xd62f105d);
    d := GG1(d, a, b, c, x[10], 9, 0x02441453);
    c := GG1(c, d, a, b, x[15], 14, 0xd8a1e681);
    b := GG1(b, c, d, a, x[4], 20, 0xe7d3fbc8);
    Sines2_4();
    FourOperations(1, 4, w0, x, w.a, w.b, w.c, w.d, a, d, c, b);
    v := Words(a, b, c, d);
  }

  lemma Sines2_8()
    ensures Sine(1, 8) == 0x21e1cde6 && Sine(1, 9) == 0xc33707d6
    ensures Sine(1, 10) == 0xf4d50d87 && Sine(1, 11) == 0x455a14ed
  {
  }

  method Round2_8(w: Words, ghost w0: Words, x: seq<bv32>) returns (v: Words)
    requires |x| == 16 && Operations(1, 8, w0, x) == w
    ensures v == Operations(1, 12, w0, x)
  {
    hide FF1, GG1, HH1, II1, Operations, Sine;
    var a, b, c, d := w.a, w.b, w.c, w.d;
    a := GG1(a, b, c, d, x[9], 5, 0x21e1cde6);
    d := GG1(d, a, b, c, x[14], 9, 0xc33707d6);
    c := GG1(c, d, a, b, x[3], 14, 0xf4d50d87);
    b := GG1(b, c, d, a, x[8], 20, 0x455a14ed);
    Sines2_8();
    FourOperations(1, 8, w0, x, w.a, w.b, w.c, w.d, a, d, c, b);
    v := Words(a, b, c, d);
  }

  lemma Sines2_12()
    ensures Sine(1, 12) == 0xa9e3e905 && Sine(1, 13) == 0xfcefa3f8
    ensures Sine(1, 14) == 0x676f02d9 && Sine(1, 15) == 0x8d2a4c8a
  {
  }

  method Round2_12(w: Words, ghost w0: Words, x: seq<bv32>) returns (v: Words)
    requires |x| == 16 && Operations(1, 12, w0, x) == w
    ensures v == Operations(1, 16, w0, x)
  {
    hide FF1, GG1, HH1, II1, Operations, Sine;
    var a, b, c, d := w.a, w.b, w.c, w.d;
    a := GG1(a, b, c, d, x[13], 5, 0xa9e3e905);
    d := GG1(d, a, b, c, x[2], 9, 0xfcefa3f8);
    c := GG1(c, d, a, b, x[7], 14, 0x676f02d9);
    b := GG1(b, c, d, a, x[12], 20, 0x8d2a4c8a);
    Sines2_12();
    FourOperations(1, 12, w0, x, w.a, w.b, w.c, w.d, a, d, c, b);
    v := Words(a, b, c, d);
  }

  lemma Sines3_0()
    ensures Sine(2, 0) == 0xfffa3942 && Sine(2, 1) == 0x8771f681
    ensures Sine(2, 2) == 0x6d9d6122 && Sine(2, 3) == 0xfde5380c
  {
  }

  method Round3_0(w: Words, ghost w0: Words, x: seq<bv32>) returns (v: Words)
    requires |x| == 16 && Operations(2, 0, w0, x) == w
    ensures v == Operations(2, 4, w0, x)
  {
    hide FF1, GG1, HH1, II1, Operations, Sine;
    var a, b, c, d := w.a, w.b, w.c, w.d;
    a := HH1(a, b, c, d, x[5], 4, 0xfffa3942);
    d := HH1(d, a, b, c, x[8], 11, 0x8771f681);
    c := HH1(c, d, a, b, x[11], 16, 0x6d9d6122);
    b := HH1(b, c, d, a, x[14], 23, 0xfde5380c);
    Sines3_0();
    FourOperations(2, 0, w0, x, w.a, w.b, w.c, w.d, a, d, c, b);
    v := Words(a, b, c, d);
  }

  lemma Sines3_4()
    ensures Sine(2, 4) == 0xa4beea44 && Sine(2, 5) == 0x4bdecfa9
    ensures Sine(2, 6) == 0xf6bb4b60 && Sine(2, 7) == 0xbebfbc70
  {
  }

  method Round3_4(w: Words, ghost w0: Words, x: seq<bv32>) returns (v: Words)
    requires |x| == 16 && Operations(2, 4, w0, x) == w
    ensures v == Operations(2, 8, w0, x)
  {
    hide FF1, GG1, HH1, II1, Operations, Sine;
    var a, b, c, d := w.a, w.b, w.c, w.d;
    a := HH1(a, b, c, d, x[1], 4, 0xa4beea44);
    d := HH1(d, a, b, c, x[4], 11, 0x4bdecfa9);
    c := HH1(c, d, a, b, x[7], 16, 0xf6bb4b60);
    b := HH1(b, c, d, a, x[10], 23, 0xbebfbc70);
    Sines3_4();
    FourOperations(2, 4, w0, x, w.a, w.b, w.c, w.d, a, d, c, b);
    v := Words(a, b, c, d);
  }

  lemma Sines3_8()
    ensures Sine(2, 8) == 0x289b7ec6 && Sine(2, 9) == 0xeaa127fa
    ensures Sine(2, 10) == 0xd4ef3085 && Sine(2, 11) == 0x04881d05
  {
  }

  method Round3_8(w: Words, ghost w0: Words, x: seq<bv32>) returns (v: Words)
    requires |x| == 16 && Operations(2, 8, w0, x) == w
    ensures v == Operations(2, 12, w0, x)
  {
    hide FF1, GG1, HH1, II1, Operations, Sine;
    var a, b, c, d := w.a, w.b, w.c, w.d;
    a := HH1(a, b, c, d, x[13], 4, 0x289b7ec6);
    d := HH1(d, a, b, c, x[0], 11, 0xeaa127fa);
    c := HH1(c, d, a, b, x[3], 16, 0xd4ef3085);
    b := HH1(b, c, d, a, x[6], 23, 0x04881d05);
    Sines3_8();
    FourOperations(2, 8, w0, x, w.a, w.b, w.c, w.d, a, d, c, b);
    v := Words(a, b, c, d);
  }

  lemma Sines3_12()
    ensures Sine(2, 12) == 0xd9d4d039 && Sine(2, 13) == 0xe6db99e5
    ensures Sine(2, 14) == 0x1fa27cf8 && Sine(2, 15) == 0xc4ac5665
  {
  }

  method Round3_12(w: Words, ghost w0: Words, x: seq<bv32>) returns (v: Words)
    requires |x| == 16 && Operations(2, 12, w0, x) == w
    ensures v == Operations(2, 16, w0, x)
  {
    hide FF1, GG1, HH1, II1, Operations, Sine;
    var a, b, c, d := w.a, w.b, w.c, w.d;
    a := HH1(a, b, c, d, x[9], 4, 0xd9d4d039);
    d := HH1(d, a, b, c, x[12], 11, 0xe6db99e5);
    c := HH1(c, d, a, b, x[15], 16, 0x1fa27cf8);
    b := HH1(b, c, d, a, x[2], 23, 0xc4ac5665);
    Sines3_12();
    FourOperations(2, 12, w0, x, w.a, w.b, w.c, w.d, a, d, c, b);
    v := Words(a, b, c, d);
  }

  lemma Sines4_0()
    ensures Sine(3, 0) == 0xf4292244 && Sine(3, 1) == 0x432aff97
    ensures Sine(3, 2) == 0xab9423a7 && Sine(3, 3) == 0xfc93a039
  {
  }

  method Round4_0(w: Words, ghost w0: Words, x: seq<bv32>) returns (v: Words)
    requires |x| == 16 && Operations(3, 0, w0, x) == w
    ensures v == Operations(3, 4, w0, x)
  {
    hide FF1, GG1, HH1, II1, Operations, Sine;
    var a, b, c, d := w.a, w.b, w.c, w.d;
    a := II1(a, b, c, d, x[0], 6, 0xf4292244);
    d := II1(d, a, b, c, x[7], 10, 0x432aff97);
    c := II1(c, d, a, b, x[14], 15, 0xab9423a7);
    b := II1(b, c, d, a, x[5], 21, 0xfc93a039);
    Sines4_0();
    FourOperations(3, 0, w0, x, w.a, w.b, w.c, w.d, a, d, c, b);
    v := Words(a, b, c, d);
  }

  lemma Sines4_4()
    ensures Sine(3, 4) == 0x655b59c3 && Sine(3, 5) == 0x8f0ccc92
    ensures Sine(3, 6) == 0xffeff47d && Sine(3, 7) == 0x85845dd1
  {
  }

  method Round4_4(w: Words, ghost w0: Words, x: seq<bv32>) returns (v: Words)
    requires |x| == 16 && Operations(3, 4, w0, x) == w
    ensures v == Operations(3, 8, w0, x)
  {
    hide FF1, GG1, HH1, II1, Operations, Sine;
    var a, b, c, d := w.a, w.b, w.c, w.d;
    a := II1(a, b, c, d, x[12], 6, 0x655b59c3);
    d := II1(d, a, b, c, x[3], 10, 0x8f0ccc92);
    c := II1(c, d, a, b, x[10], 15, 0xffeff47d);
    b := II1(b, c, d, a, x[1], 21, 0x85845dd1);
    Sines4_4();
    FourOperations(3, 4, w0, x, w.a, w.b, w.c, w.d, a, d, c, b);
    v := Words(a, b, c, d);
  }

  lemma Sines4_8()
    ensures Sine(3, 8) == 0x6fa87e4f && Sine(3, 9) == 0xfe2ce6e0
    ensures Sine(3, 10) == 0xa3014314 && Sine(3, 11) == 0x4e0811a1
  {
  }

  method Round4_8(w: Words, ghost w0: Words, x: seq<bv32>) returns (v: Words)
    requires |x| == 16 && Operations(3, 8, w0, x) == w
    ensures v == Operations(3, 12, w0, x)
  {
    hide FF1, GG1, HH1, II1, Operations, Sine;
    var a, b, c, d := w.a, w.b, w.c, w.d;
    a := II1(a, b, c, d, x[8], 6, 0x6fa87e4f);
    d := II1(d, a, b, c, x[15], 10, 0xfe2ce6e0);
    c := II1(c, d, a, b, x[6], 15, 0xa3014314);
    b := II1(b, c, d, a, x[13], 21, 0x4e0811a1);
    Sines4_8();
    FourOperations(3, 8, w0, x, w.a, w.b, w.c, w.d, a, d, c, b);
    v := Words(a, b, c, d);
  }

  lemma Sines4_12()
    ensures Sine(3, 12) == 0xf7537e82 && Sine(3, 13) == 0xbd3af235
    ensures Sine(3, 14) == 0x2ad7d2bb && Sine(3, 15) == 0xeb86d391
  {
  }

  method Round4_12(w: Words, ghost w0: Words, x: seq<bv32>) returns (v: Words)
    requires |x| == 16 && Operations(3, 12, w0, x) == w
    ensures v == Operations(3, 16, w0, x)
  {
    hide FF1, GG1, HH1, II1, Operations, Sine;
    var a, b, c, d := w.a, w.b, w.c, w.d;
    a := II1(a, b, c, d, x[4], 6, 0xf7537e82);
    d := II1(d, a, b, c, x[11], 10, 0xbd3af235);
    c := II1(c, d, a, b, x[2], 15, 0x2ad7d2bb);
    b := II1(b, c, d, a, x[9], 21, 0xeb86d391);
    Sines4_12();
    FourOperations(3, 12, w0, x, w.a, w.b, w.c, w.d, a, d, c, b);
    v := Words(a, b, c, d);
  }

  method Round(round: nat, w: Words, x: seq<bv32>) returns (v: Words)
    requires |x| == 16 && round < 4
    ensures v == Operations(round, 16, w, x)
  {
    hide Operation;
    if round == 0 {
      v := Round1_0(w, w, x);
      v := Round1_4(v, w, x);
      v := Round1_8(v, w, x);
      v := Round1_12(v, w, x);
    } else if round == 1 {
      v := Round2_0(w, w, x);
      v := Round2_4(v, w, x);
      v := Round2_8(v, w, x);
      v := Round2_12(v, w, x);
    } else if round == 2 {
      v := Round3_0(w, w, x);
      v := Round3_4(v, w, x);
      v := Round3_8(v, w, x);
      v := Round3_12(v, w, x);
    } else {
      v := Round4_0(w, w, x);
      v := Round4_4(v, w, x);
      v := Round4_8(v, w, x);
      v := Round4_12(v, w, x);
    }
  }

  /** The mixing of one decoded block into the state. */
  method MixBlock(w: Words, x: seq<bv32>) returns (v: Words)
    requires |x| == 16
    ensures v == Mixed(w, x)
  {
    hide Operations, AddWords;
    v := Round(0, w, x);
    v := Round(1, v, x);
    v := Round(2, v, x);
    v := Round(3, v, x);
    v := AddWords(w, v);
  }
}
