/** The test "abc" of section A.5 of RFC 1321, step by step: the definitions give the digest printed there. Each
    step of the compression is one equation between constants; four of them make up four operations of the table,
    and sixteen operations make up a round. */
module Md5Vector {
  import opened Md5Words
  import opened Md5

  /** The only block of the padded message, as words. */
  const ABC: seq<bv32> := [
    0x80636261, 0x00000000, 0x00000000, 0x00000000,
    0x00000000, 0x00000000, 0x00000000, 0x00000000,
    0x00000000, 0x00000000, 0x00000000, 0x00000000,
    0x00000000, 0x00000000, 0x00000018, 0x00000000]

  // The registers behind each round.
  const ROUND1 := Words(0xdda9b9a6, 0x72aff2e0, 0xe396856b, 0xa1051895)
  const ROUND2 := Words(0x790a77fb, 0x726342d3, 0xa62884aa, 0x9f47e4f8)
  const ROUND3 := Words(0x7f2e507b, 0x7beb9700, 0x8fae6399, 0x99d9679d)
  const ROUND4 := Words(0x310ade8f, 0xc08226b3, 0xe484b9d8, 0x624d8cb2)

  lemma NoneYet(round: nat, w: Words)
    ensures Operations(round, 0, w, ABC) == w
  {
  }

  lemma Steps1_0()
    ensures FF1(0x67452301, 0xefcdab89, 0x98badcfe, 0x10325476, 0x80636261, 7, 0xd76aa478) == 0xd6d117b4
    ensures FF1(0x10325476, 0xd6d117b4, 0xefcdab89, 0x98badcfe, 0x00000000, 12, 0xe8c7b756) == 0x344a8432
    ensures FF1(0x98badcfe, 0x344a8432, 0xd6d117b4, 0xefcdab89, 0x00000000, 17, 0x242070db) == 0x2f6fbd72
    ensures FF1(0xefcdab89, 0x2f6fbd72, 0x344a8432, 0xd6d117b4, 0x00000000, 22, 0xc1bdceee) == 0x7ad956f2
  {
  }

  lemma Abc1_0()
    ensures Operations(0, 4, INITIAL, ABC) == Words(0xd6d117b4, 0x7ad956f2, 0x2f6fbd72, 0x344a8432)
  {
    hide Operations, FF1, GG1, HH1, II1, Sine;
    NoneYet(0, INITIAL);
    Sines1_0();
    Steps1_0();
    FourOperations(0, 0, INITIAL, ABC, 0x67452301, 0xefcdab89, 0x98badcfe, 0x10325476,
                   0xd6d117b4, 0x344a8432, 0x2f6fbd72, 0x7ad956f2);
  }

  lemma Steps1_4()
    ensures FF1(0xd6d117b4, 0x7ad956f2, 0x2f6fbd72, 0x344a8432, 0x00000000, 7, 0xf57c0faf) == 0xc73741ef
    ensures FF1(0x344a8432, 0xc73741ef, 0x7ad956f2, 0x2f6fbd72, 0x00000000, 12, 0x4787c62a) == 0x8bac3051
    ensures FF1(0x2f6fbd72, 0x8bac3051, 0xc73741ef, 0x7ad956f2, 0x00000000, 17, 0xa8304613) == 0x207dc67b
    ensures FF1(0x7ad956f2, 0x207dc67b, 0x8bac3051, 0xc73741ef, 0x00000000, 22, 0xfd469501) == 0x928d99f6
  {
  }

  lemma Abc1_4()
    requires Operations(0, 4, INITIAL, ABC) == Words(0xd6d117b4, 0x7ad956f2, 0x2f6fbd72, 0x344a8432)
    ensures Operations(0, 8, INITIAL, ABC) == Words(0xc73741ef, 0x928d99f6, 0x207dc67b, 0x8bac3051)
  {
    hide Operations, FF1, GG1, HH1, II1, Sine;
    Sines1_4();
    Steps1_4();
    FourOperations(0, 4, INITIAL, ABC, 0xd6d117b4, 0x7ad956f2, 0x2f6fbd72, 0x344a8432,
                   0xc73741ef, 0x8bac3051, 0x207dc67b, 0x928d99f6);
  }

  lemma Steps1_8()
    ensures FF1(0xc73741ef, 0x928d99f6, 0x207dc67b, 0x8bac3051, 0x00000000, 7, 0x698098d8) == 0x854b3712
    ensures FF1(0x8bac3051, 0x854b3712, 0x928d99f6, 0x207dc67b, 0x00000000, 12, 0x8b44f7af) == 0x74e2f284
    ensures FF1(0x207dc67b, 0x74e2f284, 0x854b3712, 0x928d99f6, 0x00000000, 17, 0xffff5bb1) == 0x3020401c
    ensures FF1(0x928d99f6, 0x3020401c, 0x74e2f284, 0x854b3712, 0x00000000, 22, 0x895cd7be) == 0x5ed49596
  {
  }

  lemma Abc1_8()
    requires Operations(0, 8, INITIAL, ABC) == Words(0xc73741ef, 0x928d99f6, 0x207dc67b, 0x8bac3051)
    ensures Operations(0, 12, INITIAL, ABC) == Words(0x854b3712, 0x5ed49596, 0x3020401c, 0x74e2f284)
  {
    hide Operations, FF1, GG1, HH1, II1, Sine;
    Sines1_8();
    Steps1_8();
    FourOperations(0, 8, INITIAL, ABC, 0xc73741ef, 0x928d99f6, 0x207dc67b, 0x8bac3051,
                   0x854b3712, 0x74e2f284, 0x3020401c, 0x5ed49596);
  }

  lemma Steps1_12()
    ensures FF1(0x854b3712, 0x5ed49596, 0x3020401c, 0x74e2f284, 0x00000000, 7, 0x6b901122) == 0xdda9b9a6
    ensures FF1(0x74e2f284, 0xdda9b9a6, 0x5ed49596, 0x3020401c, 0x00000000, 12, 0xfd987193) == 0xa1051895
    ensures FF1(0x3020401c, 0xa1051895, 0xdda9b9a6, 0x5ed49596, 0x00000018, 17, 0xa679438e) == 0xe396856b
    ensures FF1(0x5ed49596, 0xe396856b, 0xa1051895, 0xdda9b9a6, 0x00000000, 22, 0x49b40821) == 0x72aff2e0
  {
  }

  lemma Abc1_12()
    requires Operations(0, 12, INITIAL, ABC) == Words(0x854b3712, 0x5ed49596, 0x3020401c, 0x74e2f284)
    ensures Operations(0, 16, INITIAL, ABC) == Words(0xdda9b9a6, 0x72aff2e0, 0xe396856b, 0xa1051895)
  {
    hide Operations, FF1, GG1, HH1, II1, Sine;
    Sines1_12();
    Steps1_12();
    FourOperations(0, 12, INITIAL, ABC, 0x854b3712, 0x5ed49596, 0x3020401c, 0x74e2f284,
                   0xdda9b9a6, 0xa1051895, 0xe396856b, 0x72aff2e0);
  }

  lemma Steps2_0()
    ensures GG1(0xdda9b9a6, 0x72aff2e0, 0xe396856b, 0xa1051895, 0x00000000, 5, 0xf61e2562) == 0x3e9e9126
    ensures GG1(0xa1051895, 0x3e9e9126, 0x72aff2e0, 0xe396856b, 0x00000000, 9, 0xc040b340) == 0x4a1d804e
    ensures GG1(0xe396856b, 0x4a1d804e, 0x3e9e9126, 0x72aff2e0, 0x00000000, 14, 0x265e5a51) == 0xe25e1652
    ensures GG1(0x72aff2e0, 0xe25e1652, 0x4a1d804e, 0x3e9e9126, 0x80636261, 20, 0xe9b6c7aa) == 0xb5b204e4
  {
  }

  lemma Abc2_0()
    ensures Operations(1, 4, ROUND1, ABC) == Words(0x3e9e9126, 0xb5b204e4, 0xe25e1652, 0x4a1d804e)
  {
    hide Operations, FF1, GG1, HH1, II1, Sine;
    NoneYet(1, ROUND1);
    Sines2_0();
    Steps2_0();
    FourOperations(1, 0, ROUND1, ABC, 0xdda9b9a6, 0x72aff2e0, 0xe396856b, 0xa1051895,
                   0x3e9e9126, 0x4a1d804e, 0xe25e1652, 0xb5b204e4);
  }

  lemma Steps2_4()
    ensures GG1(0x3e9e9126, 0xb5b204e4, 0xe25e1652, 0x4a1d804e, 0x00000000, 5, 0xd62f105d) == 0x59a8ffda
    ensures GG1(0x4a1d804e, 0x59a8ffda, 0xb5b204e4, 0xe25e1652, 0x00000000, 9, 0x02441453) == 0x6d002f1e
    ensures GG1(0xe25e1652, 0x6d002f1e, 0x59a8ffda, 0xb5b204e4, 0x00000000, 14, 0xd8a1e681) == 0xabfc7920
    ensures GG1(0xb5b204e4, 0xabfc7920, 0x6d002f1e, 0x59a8ffda, 0x00000000, 20, 0xe7d3fbc8) == 0x47092c07
  {
  }

  lemma Abc2_4()
    requires Operations(1, 4, ROUND1, ABC) == Words(0x3e9e9126, 0xb5b204e4, 0xe25e1652, 0x4a1d804e)
    ensures Operations(1, 8, ROUND1, ABC) == Words(0x59a8ffda, 0x47092c07, 0xabfc7920, 0x6d002f1e)
  {
    hide Operations, FF1, GG1, HH1, II1, Sine;
    Sines2_4();
    Steps2_4();
    FourOperations(1, 4, ROUND1, ABC, 0x3e9e9126, 0xb5b204e4, 0xe25e1652, 0x4a1d804e,
                   0x59a8ffda, 0x6d002f1e, 0xabfc7920, 0x47092c07);
  }

  lemma Steps2_8()
    ensures GG1(0x59a8ffda, 0x47092c07, 0xabfc7920, 0x6d002f1e, 0x00000000, 5, 0x21e1cde6) == 0xb7f268cf
    ensures GG1(0x6d002f1e, 0xb7f268cf, 0x47092c07, 0xabfc7920, 0x00000018, 9, 0xc33707d6) == 0x09388eff
    ensures GG1(0xabfc7920, 0x09388eff, 0xb7f268cf, 0x47092c07, 0x00000000, 14, 0xf4d50d87) == 0xfe1623b1
    ensures GG1(0x47092c07, 0xfe1623b1, 0x09388eff, 0xb7f268cf, 0x00000000, 20, 0x455a14ed) == 0x786acb8f
  {
  }

  lemma Abc2_8()
    requires Operations(1, 8, ROUND1, ABC) == Words(0x59a8ffda, 0x47092c07, 0xabfc7920, 0x6d002f1e)
    ensures Operations(1, 12, ROUND1, ABC) == Words(0xb7f268cf, 0x786acb8f, 0xfe1623b1, 0x09388eff)
  {
    hide Operations, FF1, GG1, HH1, II1, Sine;
    Sines2_8();
    Steps2_8();
    FourOperations(1, 8, ROUND1, ABC, 0x59a8ffda, 0x47092c07, 0xabfc7920, 0x6d002f1e,
                   0xb7f268cf, 0x09388eff, 0xfe1623b1, 0x786acb8f);
  }

  lemma Steps2_12()
    ensures GG1(0xb7f268cf, 0x786acb8f, 0xfe1623b1, 0x09388eff, 0x00000000, 5, 0xa9e3e905) == 0x790a77fb
    ensures GG1(0x09388eff, 0x790a77fb, 0x786acb8f, 0xfe1623b1, 0x00000000, 9, 0xfcefa3f8) == 0x9f47e4f8
    ensures GG1(0xfe1623b1, 0x9f47e4f8, 0x790a77fb, 0x786acb8f, 0x00000000, 14, 0x676f02d9) == 0xa62884aa
    ensures GG1(0x786acb8f, 0xa62884aa, 0x9f47e4f8, 0x790a77fb, 0x00000000, 20, 0x8d2a4c8a) == 0x726342d3
  {
  }

  lemma Abc2_12()
    requires Operations(1, 12, ROUND1, ABC) == Words(0xb7f268cf, 0x786acb8f, 0xfe1623b1, 0x09388eff)
    ensures Operations(1, 16, ROUND1, ABC) == Words(0x790a77fb, 0x726342d3, 0xa62884aa, 0x9f47e4f8)
  {
    hide Operations, FF1, GG1, HH1, II1, Sine;
    Sines2_12();
    Steps2_12();
    FourOperations(1, 12, ROUND1, ABC, 0xb7f268cf, 0x786acb8f, 0xfe1623b1, 0x09388eff,
                   0x790a77fb, 0x9f47e4f8, 0xa62884aa, 0x726342d3);
  }

  lemma Steps3_0()
    ensures HH1(0x790a77fb, 0x726342d3, 0xa62884aa, 0x9f47e4f8, 0x00000000, 4, 0xfffa3942) == 0xb3707ebf
    ensures HH1(0x9f47e4f8, 0xb3707ebf, 0x726342d3, 0xa62884aa, 0x00000000, 11, 0x8771f681) == 0x60127b2e
    ensures HH1(0xa62884aa, 0x60127b2e, 0xb3707ebf, 0x726342d3, 0x00000000, 16, 0x6d9d6122) == 0x8d212ff5
    ensures HH1(0x726342d3, 0x8d212ff5, 0x60127b2e, 0xb3707ebf, 0x00000018, 23, 0xfde5380c) == 0x3b0875c7
  {
  }

  lemma Abc3_0()
    ensures Operations(2, 4, ROUND2, ABC) == Words(0xb3707ebf, 0x3b0875c7, 0x8d212ff5, 0x60127b2e)
  {
    hide Operations, FF1, GG1, HH1, II1, Sine;
    NoneYet(2, ROUND2);
    Sines3_0();
    Steps3_0();
    FourOperations(2, 0, ROUND2, ABC, 0x790a77fb, 0x726342d3, 0xa62884aa, 0x9f47e4f8,
                   0xb3707ebf, 0x60127b2e, 0x8d212ff5, 0x3b0875c7);
  }

  lemma Steps3_4()
    ensures HH1(0xb3707ebf, 0x3b0875c7, 0x8d212ff5, 0x60127b2e, 0x00000000, 4, 0xa4beea44) == 0x21b117b9
    ensures HH1(0x60127b2e, 0x21b117b9, 0x3b0875c7, 0x8d212ff5, 0x00000000, 11, 0x4bdecfa9) == 0x6e7429d5
    ensures HH1(0x8d212ff5, 0x6e7429d5, 0x21b117b9, 0x3b0875c7, 0x00000000, 16, 0xf6bb4b60) == 0x3575227e
    ensures HH1(0x3b0875c7, 0x3575227e, 0x6e7429d5, 0x21b117b9, 0x00000000, 23, 0xbebfbc70) == 0x5a2f5ea5
  {
  }

  lemma Abc3_4()
    requires Operations(2, 4, ROUND2, ABC) == Words(0xb3707ebf, 0x3b0875c7, 0x8d212ff5, 0x60127b2e)
    ensures Operations(2, 8, ROUND2, ABC) == Words(0x21b117b9, 0x5a2f5ea5, 0x3575227e, 0x6e7429d5)
  {
    hide Operations, FF1, GG1, HH1, II1, Sine;
    Sines3_4();
    Steps3_4();
    FourOperations(2, 4, ROUND2, ABC, 0xb3707ebf, 0x3b0875c7, 0x8d212ff5, 0x60127b2e,
                   0x21b117b9, 0x6e7429d5, 0x3575227e, 0x5a2f5ea5);
  }

  lemma Steps3_8()
    ensures HH1(0x21b117b9, 0x5a2f5ea5, 0x3575227e, 0x6e7429d5, 0x00000000, 4, 0x289b7ec6) == 0x11de1779
    ensures HH1(0x6e7429d5, 0x11de1779, 0x5a2f5ea5, 0x3575227e, 0x80636261, 11, 0xeaa127fa) == 0xfadcaa38
    ensures HH1(0x3575227e, 0xfadcaa38, 0x11de1779, 0x5a2f5ea5, 0x00000000, 16, 0xd4ef3085) == 0x31c465ca
    ensures HH1(0x5a2f5ea5, 0x31c465ca, 0xfadcaa38, 0x11de1779, 0x00000000, 23, 0x04881d05) == 0x4c6124f4
  {
  }

  lemma Abc3_8()
    requires Operations(2, 8, ROUND2, ABC) == Words(0x21b117b9, 0x5a2f5ea5, 0x3575227e, 0x6e7429d5)
    ensures Operations(2, 12, ROUND2, ABC) == Words(0x11de1779, 0x4c6124f4, 0x31c465ca, 0xfadcaa38)
  {
    hide Operations, FF1, GG1, HH1, II1, Sine;
    Sines3_8();
    Steps3_8();
    FourOperations(2, 8, ROUND2, ABC, 0x21b117b9, 0x5a2f5ea5, 0x3575227e, 0x6e7429d5,
                   0x11de1779, 0xfadcaa38, 0x31c465ca, 0x4c6124f4);
  }

  lemma Steps3_12()
    ensures HH1(0x11de1779, 0x4c6124f4, 0x31c465ca, 0xfadcaa38, 0x00000000, 4, 0xd9d4d039) == 0x7f2e507b
    ensures HH1(0xfadcaa38, 0x7f2e507b, 0x4c6124f4, 0x31c465ca, 0x00000000, 11, 0xe6db99e5) == 0x99d9679d
    ensures HH1(0x31c465ca, 0x99d9679d, 0x7f2e507b, 0x4c6124f4, 0x00000000, 16, 0x1fa27cf8) == 0x8fae6399
    ensures HH1(0x4c6124f4, 0x8fae6399, 0x99d9679d, 0x7f2e507b, 0x00000000, 23, 0xc4ac5665) == 0x7beb9700
  {
  }

  lemma Abc3_12()
    requires Operations(2, 12, ROUND2, ABC) == Words(0x11de1779, 0x4c6124f4, 0x31c465ca, 0xfadcaa38)
    ensures Operations(2, 16, ROUND2, ABC) == Words(0x7f2e507b, 0x7beb9700, 0x8fae6399, 0x99d9679d)
  {
    hide Operations, FF1, GG1, HH1, II1, Sine;
    Sines3_12();
    Steps3_12();
    FourOperations(2, 12, ROUND2, ABC, 0x11de1779, 0x4c6124f4, 0x31c465ca, 0xfadcaa38,
                   0x7f2e507b, 0x99d9679d, 0x8fae6399, 0x7beb9700);
  }

  lemma Steps4_0()
    ensures II1(0x7f2e507b, 0x7beb9700, 0x8fae6399, 0x99d9679d, 0x80636261, 6, 0xf4292244) == 0x7b201df8
    ensures II1(0x99d9679d, 0x7b201df8, 0x7beb9700, 0x8fae6399, 0x00000000, 10, 0x432aff97) == 0xf4e8e96e
    ensures II1(0x8fae6399, 0xf4e8e96e, 0x7b201df8, 0x7beb9700, 0x00000018, 15, 0xab9423a7) == 0xb298cefd
    ensures II1(0x7beb9700, 0xb298cefd, 0xf4e8e96e, 0x7b201df8, 0x00000000, 21, 0xfc93a039) == 0x8bf025c4
  {
  }

  lemma Abc4_0()
    ensures Operations(3, 4, ROUND3, ABC) == Words(0x7b201df8, 0x8bf025c4, 0xb298cefd, 0xf4e8e96e)
  {
    hide Operations, FF1, GG1, HH1, II1, Sine;
    NoneYet(3, ROUND3);
    Sines4_0();
    Steps4_0();
    FourOperations(3, 0, ROUND3, ABC, 0x7f2e507b, 0x7beb9700, 0x8fae6399, 0x99d9679d,
                   0x7b201df8, 0xf4e8e96e, 0xb298cefd, 0x8bf025c4);
  }

  lemma Steps4_4()
    ensures II1(0x7b201df8, 0x8bf025c4, 0xb298cefd, 0xf4e8e96e, 0x00000000, 6, 0x655b59c3) == 0x06cc5e8a
    ensures II1(0xf4e8e96e, 0x06cc5e8a, 0x8bf025c4, 0xb298cefd, 0x00000000, 10, 0x8f0ccc92) == 0x5b0d97aa
    ensures II1(0xb298cefd, 0x5b0d97aa, 0x06cc5e8a, 0x8bf025c4, 0x00000000, 15, 0xffeff47d) == 0x7d632dd0
    ensures II1(0x8bf025c4, 0x7d632dd0, 0x5b0d97aa, 0x06cc5e8a, 0x00000000, 21, 0x85845dd1) == 0x3bfa2c27
  {
  }

  lemma Abc4_4()
    requires Operations(3, 4, ROUND3, ABC) == Words(0x7b201df8, 0x8bf025c4, 0xb298cefd, 0xf4e8e96e)
    ensures Operations(3, 8, ROUND3, ABC) == Words(0x06cc5e8a, 0x3bfa2c27, 0x7d632dd0, 0x5b0d97aa)
  {
    hide Operations, FF1, GG1, HH1, II1, Sine;
    Sines4_4();
    Steps4_4();
    FourOperations(3, 4, ROUND3, ABC, 0x7b201df8, 0x8bf025c4, 0xb298cefd, 0xf4e8e96e,
                   0x06cc5e8a, 0x5b0d97aa, 0x7d632dd0, 0x3bfa2c27);
  }

  lemma Steps4_8()
    ensures II1(0x06cc5e8a, 0x3bfa2c27, 0x7d632dd0, 0x5b0d97aa, 0x00000000, 6, 0x6fa87e4f) == 0x7f81cc35
    ensures II1(0x5b0d97aa, 0x7f81cc35, 0x3bfa2c27, 0x7d632dd0, 0x00000000, 10, 0xfe2ce6e0) == 0x094454ab
    ensures II1(0x7d632dd0, 0x094454ab, 0x7f81cc35, 0x3bfa2c27, 0x00000000, 15, 0xa3014314) == 0x4f9dbe3f
    ensures II1(0x3bfa2c27, 0x4f9dbe3f, 0x094454ab, 0x7f81cc35, 0x00000000, 21, 0x4e0811a1) == 0x7327d604
  {
  }

  lemma Abc4_8()
    requires Operations(3, 8, ROUND3, ABC) == Words(0x06cc5e8a, 0x3bfa2c27, 0x7d632dd0, 0x5b0d97aa)
    ensures Operations(3, 12, ROUND3, ABC) == Words(0x7f81cc35, 0x7327d604, 0x4f9dbe3f, 0x094454ab)
  {
    hide Operations, FF1, GG1, HH1, II1, Sine;
    Sines4_8();
    Steps4_8();
    FourOperations(3, 8, ROUND3, ABC, 0x06cc5e8a, 0x3bfa2c27, 0x7d632dd0, 0x5b0d97aa,
                   0x7f81cc35, 0x094454ab, 0x4f9dbe3f, 0x7327d604);
  }

  lemma Steps4_12()
    ensures II1(0x7f81cc35, 0x7327d604, 0x4f9dbe3f, 0x094454ab, 0x00000000, 6, 0xf7537e82) == 0x310ade8f
    ensures II1(0x094454ab, 0x310ade8f, 0x7327d604, 0x4f9dbe3f, 0x00000000, 10, 0xbd3af235) == 0x624d8cb2
    ensures II1(0x4f9dbe3f, 0x624d8cb2, 0x310ade8f, 0x7327d604, 0x00000000, 15, 0x2ad7d2bb) == 0xe484b9d8
    ensures II1(0x7327d604, 0xe484b9d8, 0x624d8cb2, 0x310ade8f, 0x00000000, 21, 0xeb86d391) == 0xc08226b3
  {
  }

  lemma Abc4_12()
    requires Operations(3, 12, ROUND3, ABC) == Words(0x7f81cc35, 0x7327d604, 0x4f9dbe3f, 0x094454ab)
    ensures Operations(3, 16, ROUND3, ABC) == Words(0x310ade8f, 0xc08226b3, 0xe484b9d8, 0x624d8cb2)
  {
    hide Operations, FF1, GG1, HH1, II1, Sine;
    Sines4_12();
    Steps4_12();
    FourOperations(3, 12, ROUND3, ABC, 0x7f81cc35, 0x7327d604, 0x4f9dbe3f, 0x094454ab,
                   0x310ade8f, 0x624d8cb2, 0xe484b9d8, 0xc08226b3);
  }

  lemma AbcMixed()
    ensures Mixed(INITIAL, ABC) == Words(0x98500190, 0xb04fd23c, 0x7d3f96d6, 0x727fe128)
  {
    hide Operations;
    Abc1_0();
    Abc1_4();
    Abc1_8();
    Abc1_12();
    Abc2_0();
    Abc2_4();
    Abc2_8();
    Abc2_12();
    Abc3_0();
    Abc3_4();
    Abc3_8();
    Abc3_12();
    Abc4_0();
    Abc4_4();
    Abc4_8();
    Abc4_12();
  }

  lemma AbcBytes()
    ensures var b := Padded([0x61, 0x62, 0x63]);
            && |b| == 64 && b[0] == 0x61 && b[1] == 0x62 && b[2] == 0x63 && b[3] == 0x80 && b[56] == 24
            && forall k :: 4 <= k < 64 && k != 56 ==> b[k] == 0
  {
    var s: Bytes := [0x61, 0x62, 0x63];
    var c := BytesOf(CountWords(3));
    assert PadLen(3) == 53;
    assert CountWords(3) == [24, 0];
    CountBytes();
    hide BytesOf, CountWords;
    var b := Padded(s);
    assert b == s + Padding(53) + c;
  }

  lemma CountBytes()
    ensures BytesOf([24, 0]) == [24, 0, 0, 0, 0, 0, 0, 0]
  {
    BytesOfAt([24, 0], 0);
    BytesOfAt([24, 0], 1);
    var b := BytesOf([24, 0]);
    assert b == [b[0], b[1], b[2], b[3], b[4], b[5], b[6], b[7]];
  }

  lemma AbcWords()
    ensures var b := Padded([0x61, 0x62, 0x63]); |b| == 64 && WordsOf(b) == ABC
  {
    AbcBytes();
    hide Padded;
    var b := Padded([0x61, 0x62, 0x63]);
    assert WordAt(0x61, 0x62, 0x63, 0x80) == 0x80636261 && WordAt(0, 0, 0, 0) == 0 && WordAt(24, 0, 0, 0) == 24;
    hide WordAt;
    forall i | 0 <= i < 16
      ensures WordsOf(b)[i] == ABC[i]
    {
      assert WordsOf(b)[i] == WordAt(b[4 * i], b[4 * i + 1], b[4 * i + 2], b[4 * i + 3]);
    }
  }

  /** The digest of "abc" as RFC 1321 prints it: 900150983cd24fb0d6963f7d28e17f72. */
  lemma AbcDigest()
    ensures Digest([0x61, 0x62, 0x63]) ==
            [0x90, 0x01, 0x50, 0x98, 0x3c, 0xd2, 0x4f, 0xb0, 0xd6, 0x96, 0x3f, 0x7d, 0x28, 0xe1, 0x7f, 0x72]
  {
    hide Padded, Mixed, Absorb, WordsOf, BytesOf;
    var b := Padded([0x61, 0x62, 0x63]);
    AbcWords();
    AbcMixed();
    AbsorbBlock(INITIAL, b);
    DigestBytes();
  }

  lemma DigestBytes()
    ensures BytesOf([0x98500190, 0xb04fd23c, 0x7d3f96d6, 0x727fe128]) ==
            [0x90, 0x01, 0x50, 0x98, 0x3c, 0xd2, 0x4f, 0xb0, 0xd6, 0x96, 0x3f, 0x7d, 0x28, 0xe1, 0x7f, 0x72]
  {
    var w: seq<bv32> := [0x98500190, 0xb04fd23c, 0x7d3f96d6, 0x727fe128];
    BytesOfAt(w, 0);
    BytesOfAt(w, 1);
    BytesOfAt(w, 2);
    BytesOfAt(w, 3);
    var b := BytesOf(w);
    hide BytesOf;
    assert b == [b[0], b[1], b[2], b[3], b[4], b[5], b[6], b[7], b[8], b[9], b[10], b[11], b[12], b[13], b[14], b[15]];
  }
}
