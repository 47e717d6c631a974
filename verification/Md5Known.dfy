/** Two known answers of appendix A.5 of RFC 1321, worked out step by step: the empty message and "abc".
    They tie the definitions of the standard, and with them the code, to literal bytes. */
module Md5Known {
  import opened Bits
  import opened Md5Spec

  /** One step, on known words: of the four registers only one is new. */
  lemma Next(i: nat, r: Regs, x: seq<Word>, k: Word, t: Word, s: nat, next: Word)
    requires i < 64 && |x| == 16 && Steps(i, IV, x) == r && s <= 32
    requires x[Index(i)] == k && T(i) == t && Shift(i) == s
    requires Mix(r.a, r.b, Aux(i, r.b, r.c, r.d), k, t, s) == next
    ensures Steps(i + 1, IV, x) == Regs(r.d, next, r.b, r.c)
  {
    hide Mix, Aux, T, Shift, Index;
  }

  // ---------- the empty message

  /** The words of the padded empty message. */
  ghost predicate EmptyWords(x: seq<Word>) {
    |x| == 16 && x[0] == 0x80 && forall j :: 1 <= j < 16 ==> x[j] == 0
  }

  lemma Empty0(x: seq<Word>)
    requires EmptyWords(x) && Steps(0, IV, x) == Regs(0x67452301, 0xefcdab89, 0x98badcfe, 0x10325476)
    ensures Steps(8, IV, x) == Regs(0x32033344, 0x9bc13ce9, 0xf5b158db, 0x2f35d494)
  {
    hide Steps;
    Next(0, Regs(0x67452301, 0xefcdab89, 0x98badcfe, 0x10325476), x, 0x80, 0xd76aa478, 7, 0xa5202774);
    Next(1, Regs(0x10325476, 0xa5202774, 0xefcdab89, 0x98badcfe), x, 0, 0xe8c7b756, 12, 0xf59592dd);
    Next(2, Regs(0x98badcfe, 0xf59592dd, 0xa5202774, 0xefcdab89), x, 0, 0x242070db, 17, 0xe7f06b23);
    Next(3, Regs(0xefcdab89, 0xe7f06b23, 0xf59592dd, 0xa5202774), x, 0, 0xc1bdceee, 22, 0x1b163203);
    Next(4, Regs(0xa5202774, 0x1b163203, 0xe7f06b23, 0xf59592dd), x, 0, 0xf57c0faf, 7, 0x32033344);
    Next(5, Regs(0xf59592dd, 0x32033344, 0x1b163203, 0xe7f06b23), x, 0, 0x4787c62a, 12, 0x2f35d494);
    Next(6, Regs(0xe7f06b23, 0x2f35d494, 0x32033344, 0x1b163203), x, 0, 0xa8304613, 17, 0xf5b158db);
    Next(7, Regs(0x1b163203, 0xf5b158db, 0x2f35d494, 0x32033344), x, 0, 0xfd469501, 22, 0x9bc13ce9);
  }

  lemma Empty8(x: seq<Word>)
    requires EmptyWords(x) && Steps(8, IV, x) == Regs(0x32033344, 0x9bc13ce9, 0xf5b158db, 0x2f35d494)
    ensures Steps(16, IV, x) == Regs(0xf56c7cf1, 0xd6819c6a, 0x5aa53f75, 0x374943a7)
  {
    hide Steps;
    Next(8, Regs(0x32033344, 0x9bc13ce9, 0xf5b158db, 0x2f35d494), x, 0, 0x698098d8, 7, 0x3893b991);
    Next(9, Regs(0x2f35d494, 0x3893b991, 0x9bc13ce9, 0xf5b158db), x, 0, 0x8b44f7af, 12, 0xfce4a312);
    Next(10, Regs(0xf5b158db, 0xfce4a312, 0x3893b991, 0x9bc13ce9), x, 0, 0xffff5bb1, 17, 0xe1ef0576);
    Next(11, Regs(0x9bc13ce9, 0xe1ef0576, 0xfce4a312, 0x3893b991), x, 0, 0x895cd7be, 22, 0x70768a29);
    Next(12, Regs(0x3893b991, 0x70768a29, 0xe1ef0576, 0xfce4a312), x, 0, 0x6b901122, 7, 0xf56c7cf1);
    Next(13, Regs(0xfce4a312, 0xf56c7cf1, 0x70768a29, 0xe1ef0576), x, 0, 0xfd987193, 12, 0x374943a7);
    Next(14, Regs(0xe1ef0576, 0x374943a7, 0xf56c7cf1, 0x70768a29), x, 0, 0xa679438e, 17, 0x5aa53f75);
    Next(15, Regs(0x70768a29, 0x5aa53f75, 0x374943a7, 0xf56c7cf1), x, 0, 0x49b40821, 22, 0xd6819c6a);
  }

  lemma Empty16(x: seq<Word>)
    requires EmptyWords(x) && Steps(16, IV, x) == Regs(0xf56c7cf1, 0xd6819c6a, 0x5aa53f75, 0x374943a7)
    ensures Steps(24, IV, x) == Regs(0x3d1e3e6c, 0xe422531a, 0xeb41643e, 0x68b7b3e3)
  {
    hide Steps;
    Next(16, Regs(0xf56c7cf1, 0xd6819c6a, 0x5aa53f75, 0x374943a7), x, 0, 0xf61e2562, 5, 0x1c7d7513);
    Next(17, Regs(0x374943a7, 0x1c7d7513, 0xd6819c6a, 0x5aa53f75), x, 0, 0xc040b340, 9, 0x7bd57a3a);
    Next(18, Regs(0x5aa53f75, 0x7bd57a3a, 0x1c7d7513, 0xd6819c6a), x, 0, 0x265e5a51, 14, 0xc095f13a);
    Next(19, Regs(0xd6819c6a, 0xc095f13a, 0x7bd57a3a, 0x1c7d7513), x, 0x80, 0xe9b6c7aa, 20, 0xbd782e17);
    Next(20, Regs(0x1c7d7513, 0xbd782e17, 0xc095f13a, 0x7bd57a3a), x, 0, 0xd62f105d, 5, 0x3d1e3e6c);
    Next(21, Regs(0x7bd57a3a, 0x3d1e3e6c, 0xbd782e17, 0xc095f13a), x, 0, 0x02441453, 9, 0x68b7b3e3);
    Next(22, Regs(0xc095f13a, 0x68b7b3e3, 0x3d1e3e6c, 0xbd782e17), x, 0, 0xd8a1e681, 14, 0xeb41643e);
    Next(23, Regs(0xbd782e17, 0xeb41643e, 0x68b7b3e3, 0x3d1e3e6c), x, 0, 0xe7d3fbc8, 20, 0xe422531a);
  }

  lemma Empty24(x: seq<Word>)
    requires EmptyWords(x) && Steps(24, IV, x) == Regs(0x3d1e3e6c, 0xe422531a, 0xeb41643e, 0x68b7b3e3)
    ensures Steps(32, IV, x) == Regs(0x13707036, 0xa2205f1f, 0x1c31c384, 0xae7813db)
  {
    hide Steps;
    Next(24, Regs(0x3d1e3e6c, 0xe422531a, 0xeb41643e, 0x68b7b3e3), x, 0, 0x21e1cde6, 5, 0x306ec122);
    Next(25, Regs(0x68b7b3e3, 0x306ec122, 0xe422531a, 0xeb41643e), x, 0, 0xc33707d6, 9, 0xd28c77c2);
    Next(26, Regs(0xeb41643e, 0xd28c77c2, 0x306ec122, 0xe422531a), x, 0, 0xf4d50d87, 14, 0xa3c663da);
    Next(27, Regs(0xe422531a, 0xa3c663da, 0xd28c77c2, 0x306ec122), x, 0, 0x455a14ed, 20, 0xa0572807);
    Next(28, Regs(0x306ec122, 0xa0572807, 0xa3c663da, 0xd28c77c2), x, 0, 0xa9e3e905, 5, 0x13707036);
    Next(29, Regs(0xd28c77c2, 0x13707036, 0xa0572807, 0xa3c663da), x, 0, 0xfcefa3f8, 9, 0xae7813db);
    Next(30, Regs(0xa3c663da, 0xae7813db, 0x13707036, 0xa0572807), x, 0, 0x676f02d9, 14, 0x1c31c384);
    Next(31, Regs(0xa0572807, 0x1c31c384, 0xae7813db, 0x13707036), x, 0, 0x8d2a4c8a, 20, 0xa2205f1f);
  }

  lemma Empty32(x: seq<Word>)
    requires EmptyWords(x) && Steps(32, IV, x) == Regs(0x13707036, 0xa2205f1f, 0x1c31c384, 0xae7813db)
    ensures Steps(40, IV, x) == Regs(0x5f7a9b2e, 0xc5dc8c15, 0x91ca4cb7, 0xabc34e16)
  {
    hide Steps;
    Next(32, Regs(0x13707036, 0xa2205f1f, 0x1c31c384, 0xae7813db), x, 0, 0xfffa3942, 4, 0xdf63eaa1);
    Next(33, Regs(0xae7813db, 0xdf63eaa1, 0xa2205f1f, 0x1c31c384), x, 0, 0x8771f681, 11, 0xc3689f5b);
    Next(34, Regs(0x1c31c384, 0xc3689f5b, 0xdf63eaa1, 0xa2205f1f), x, 0, 0x6d9d6122, 16, 0x12f3e755);
    Next(35, Regs(0xa2205f1f, 0x12f3e755, 0xc3689f5b, 0xdf63eaa1), x, 0, 0xfde5380c, 23, 0x004b6669);
    Next(36, Regs(0xdf63eaa1, 0x004b6669, 0x12f3e755, 0xc3689f5b), x, 0, 0xa4beea44, 4, 0x5f7a9b2e);
    Next(37, Regs(0xc3689f5b, 0x5f7a9b2e, 0x004b6669, 0x12f3e755), x, 0, 0x4bdecfa9, 11, 0xabc34e16);
    Next(38, Regs(0x12f3e755, 0xabc34e16, 0x5f7a9b2e, 0x004b6669), x, 0, 0xf6bb4b60, 16, 0x91ca4cb7);
    Next(39, Regs(0x004b6669, 0x91ca4cb7, 0xabc34e16, 0x5f7a9b2e), x, 0, 0xbebfbc70, 23, 0xc5dc8c15);
  }

  lemma Empty40(x: seq<Word>)
    requires EmptyWords(x) && Steps(40, IV, x) == Regs(0x5f7a9b2e, 0xc5dc8c15, 0x91ca4cb7, 0xabc34e16)
    ensures Steps(48, IV, x) == Regs(0x3f55edfd, 0xca7d2dbd, 0x68d84ea2, 0x22a31f54)
  {
    hide Steps;
    Next(40, Regs(0x5f7a9b2e, 0xc5dc8c15, 0x91ca4cb7, 0xabc34e16), x, 0, 0x289b7ec6, 4, 0x4497169d);
    Next(41, Regs(0xabc34e16, 0x4497169d, 0xc5dc8c15, 0x91ca4cb7), x, 0x80, 0xeaa127fa, 11, 0x76fd93d4);
    Next(42, Regs(0x91ca4cb7, 0x76fd93d4, 0x4497169d, 0xc5dc8c15), x, 0, 0xd4ef3085, 16, 0xfd95f243);
    Next(43, Regs(0xc5dc8c15, 0xfd95f243, 0x76fd93d4, 0x4497169d), x, 0, 0x04881d05, 23, 0x0fe32453);
    Next(44, Regs(0x4497169d, 0x0fe32453, 0xfd95f243, 0x76fd93d4), x, 0, 0xd9d4d039, 4, 0x3f55edfd);
    Next(45, Regs(0x76fd93d4, 0x3f55edfd, 0x0fe32453, 0xfd95f243), x, 0, 0xe6db99e5, 11, 0x22a31f54);
    Next(46, Regs(0xfd95f243, 0x22a31f54, 0x3f55edfd, 0x0fe32453), x, 0, 0x1fa27cf8, 16, 0x68d84ea2);
    Next(47, Regs(0x0fe32453, 0x68d84ea2, 0x22a31f54, 0x3f55edfd), x, 0, 0xc4ac5665, 23, 0xca7d2dbd);
  }

  lemma Empty48(x: seq<Word>)
    requires EmptyWords(x) && Steps(48, IV, x) == Regs(0x3f55edfd, 0xca7d2dbd, 0x68d84ea2, 0x22a31f54)
    ensures Steps(56, IV, x) == Regs(0x5625a114, 0x1e77fa61, 0x392ad0d0, 0x3450f42b)
  {
    hide Steps;
    Next(48, Regs(0x3f55edfd, 0xca7d2dbd, 0x68d84ea2, 0x22a31f54), x, 0x80, 0xf4292244, 6, 0x93aa2577);
    Next(49, Regs(0x22a31f54, 0x93aa2577, 0xca7d2dbd, 0x68d84ea2), x, 0, 0x432aff97, 10, 0x1688dc85);
    Next(50, Regs(0x68d84ea2, 0x1688dc85, 0x93aa2577, 0xca7d2dbd), x, 0, 0xab9423a7, 15, 0xcd85b8cb);
    Next(51, Regs(0xca7d2dbd, 0xcd85b8cb, 0x1688dc85, 0x93aa2577), x, 0, 0xfc93a039, 21, 0x561e0689);
    Next(52, Regs(0x93aa2577, 0x561e0689, 0xcd85b8cb, 0x1688dc85), x, 0, 0x655b59c3, 6, 0x5625a114);
    Next(53, Regs(0x1688dc85, 0x5625a114, 0x561e0689, 0xcd85b8cb), x, 0, 0x8f0ccc92, 10, 0x3450f42b);
    Next(54, Regs(0xcd85b8cb, 0x3450f42b, 0x5625a114, 0x561e0689), x, 0, 0xffeff47d, 15, 0x392ad0d0);
    Next(55, Regs(0x561e0689, 0x392ad0d0, 0x3450f42b, 0x5625a114), x, 0, 0x85845dd1, 21, 0x1e77fa61);
  }

  lemma Empty56(x: seq<Word>)
    requires EmptyWords(x) && Steps(56, IV, x) == Regs(0x5625a114, 0x1e77fa61, 0x392ad0d0, 0x3450f42b)
    ensures Steps(64, IV, x) == Regs(0x7246fad3, 0x14e45506, 0xff4ea3eb, 0x6e10a476)
  {
    hide Steps;
    Next(56, Regs(0x5625a114, 0x1e77fa61, 0x392ad0d0, 0x3450f42b), x, 0, 0x6fa87e4f, 6, 0x474a9c8c);
    Next(57, Regs(0x3450f42b, 0x474a9c8c, 0x1e77fa61, 0x392ad0d0), x, 0, 0xfe2ce6e0, 10, 0xdfce00bc);
    Next(58, Regs(0x392ad0d0, 0xdfce00bc, 0x474a9c8c, 0x1e77fa61), x, 0, 0xa3014314, 15, 0x36594b14);
    Next(59, Regs(0x1e77fa61, 0x36594b14, 0xdfce00bc, 0x474a9c8c), x, 0, 0x4e0811a1, 21, 0x30130182);
    Next(60, Regs(0x474a9c8c, 0x30130182, 0x36594b14, 0xdfce00bc), x, 0, 0xf7537e82, 6, 0x7246fad3);
    Next(61, Regs(0xdfce00bc, 0x7246fad3, 0x30130182, 0x36594b14), x, 0, 0xbd3af235, 10, 0x6e10a476);
    Next(62, Regs(0x36594b14, 0x6e10a476, 0x7246fad3, 0x30130182), x, 0, 0x2ad7d2bb, 15, 0xff4ea3eb);
    Next(63, Regs(0x30130182, 0xff4ea3eb, 0x6e10a476, 0x7246fad3), x, 0, 0xeb86d391, 21, 0x14e45506);
  }

  lemma EmptyCompress(x: seq<Word>)
    requires EmptyWords(x)
    ensures Compress(IV, x) == Regs(0xd98c1dd4, 0x04b2008f, 0x980980e9, 0x7e42f8ec)
  {
    NoStep(x);
    hide Steps;
    Empty0(x);
    Empty8(x);
    Empty16(x);
    Empty24(x);
    Empty32(x);
    Empty40(x);
    Empty48(x);
    Empty56(x);
  }

  // ---------- the message "abc"

  /** The words of the padded message "abc": 24 bits. */
  ghost predicate AbcWords(x: seq<Word>) {
    |x| == 16 && x[0] == 0x80636261 && x[14] == 24 && forall j :: 1 <= j < 16 && j != 14 ==> x[j] == 0
  }

  lemma Abc0(x: seq<Word>)
    requires AbcWords(x) && Steps(0, IV, x) == Regs(0x67452301, 0xefcdab89, 0x98badcfe, 0x10325476)
    ensures Steps(8, IV, x) == Regs(0xc73741ef, 0x928d99f6, 0x207dc67b, 0x8bac3051)
  {
    hide Steps;
    Next(0, Regs(0x67452301, 0xefcdab89, 0x98badcfe, 0x10325476), x, 0x80636261, 0xd76aa478, 7, 0xd6d117b4);
    Next(1, Regs(0x10325476, 0xd6d117b4, 0xefcdab89, 0x98badcfe), x, 0, 0xe8c7b756, 12, 0x344a8432);
    Next(2, Regs(0x98badcfe, 0x344a8432, 0xd6d117b4, 0xefcdab89), x, 0, 0x242070db, 17, 0x2f6fbd72);
    Next(3, Regs(0xefcdab89, 0x2f6fbd72, 0x344a8432, 0xd6d117b4), x, 0, 0xc1bdceee, 22, 0x7ad956f2);
    Next(4, Regs(0xd6d117b4, 0x7ad956f2, 0x2f6fbd72, 0x344a8432), x, 0, 0xf57c0faf, 7, 0xc73741ef);
    Next(5, Regs(0x344a8432, 0xc73741ef, 0x7ad956f2, 0x2f6fbd72), x, 0, 0x4787c62a, 12, 0x8bac3051);
    Next(6, Regs(0x2f6fbd72, 0x8bac3051, 0xc73741ef, 0x7ad956f2), x, 0, 0xa8304613, 17, 0x207dc67b);
    Next(7, Regs(0x7ad956f2, 0x207dc67b, 0x8bac3051, 0xc73741ef), x, 0, 0xfd469501, 22, 0x928d99f6);
  }

  lemma Abc8(x: seq<Word>)
    requires AbcWords(x) && Steps(8, IV, x) == Regs(0xc73741ef, 0x928d99f6, 0x207dc67b, 0x8bac3051)
    ensures Steps(16, IV, x) == Regs(0xdda9b9a6, 0x72aff2e0, 0xe396856b, 0xa1051895)
  {
    hide Steps;
    Next(8, Regs(0xc73741ef, 0x928d99f6, 0x207dc67b, 0x8bac3051), x, 0, 0x698098d8, 7, 0x854b3712);
    Next(9, Regs(0x8bac3051, 0x854b3712, 0x928d99f6, 0x207dc67b), x, 0, 0x8b44f7af, 12, 0x74e2f284);
    Next(10, Regs(0x207dc67b, 0x74e2f284, 0x854b3712, 0x928d99f6), x, 0, 0xffff5bb1, 17, 0x3020401c);
    Next(11, Regs(0x928d99f6, 0x3020401c, 0x74e2f284, 0x854b3712), x, 0, 0x895cd7be, 22, 0x5ed49596);
    Next(12, Regs(0x854b3712, 0x5ed49596, 0x3020401c, 0x74e2f284), x, 0, 0x6b901122, 7, 0xdda9b9a6);
    Next(13, Regs(0x74e2f284, 0xdda9b9a6, 0x5ed49596, 0x3020401c), x, 0, 0xfd987193, 12, 0xa1051895);
    Next(14, Regs(0x3020401c, 0xa1051895, 0xdda9b9a6, 0x5ed49596), x, 24, 0xa679438e, 17, 0xe396856b);
    Next(15, Regs(0x5ed49596, 0xe396856b, 0xa1051895, 0xdda9b9a6), x, 0, 0x49b40821, 22, 0x72aff2e0);
  }

  lemma Abc16(x: seq<Word>)
    requires AbcWords(x) && Steps(16, IV, x) == Regs(0xdda9b9a6, 0x72aff2e0, 0xe396856b, 0xa1051895)
    ensures Steps(24, IV, x) == Regs(0x59a8ffda, 0x47092c07, 0xabfc7920, 0x6d002f1e)
  {
    hide Steps;
    Next(16, Regs(0xdda9b9a6, 0x72aff2e0, 0xe396856b, 0xa1051895), x, 0, 0xf61e2562, 5, 0x3e9e9126);
    Next(17, Regs(0xa1051895, 0x3e9e9126, 0x72aff2e0, 0xe396856b), x, 0, 0xc040b340, 9, 0x4a1d804e);
    Next(18, Regs(0xe396856b, 0x4a1d804e, 0x3e9e9126, 0x72aff2e0), x, 0, 0x265e5a51, 14, 0xe25e1652);
    Next(19, Regs(0x72aff2e0, 0xe25e1652, 0x4a1d804e, 0x3e9e9126), x, 0x80636261, 0xe9b6c7aa, 20, 0xb5b204e4);
    Next(20, Regs(0x3e9e9126, 0xb5b204e4, 0xe25e1652, 0x4a1d804e), x, 0, 0xd62f105d, 5, 0x59a8ffda);
    Next(21, Regs(0x4a1d804e, 0x59a8ffda, 0xb5b204e4, 0xe25e1652), x, 0, 0x02441453, 9, 0x6d002f1e);
    Next(22, Regs(0xe25e1652, 0x6d002f1e, 0x59a8ffda, 0xb5b204e4), x, 0, 0xd8a1e681, 14, 0xabfc7920);
    Next(23, Regs(0xb5b204e4, 0xabfc7920, 0x6d002f1e, 0x59a8ffda), x, 0, 0xe7d3fbc8, 20, 0x47092c07);
  }

  lemma Abc24(x: seq<Word>)
    requires AbcWords(x) && Steps(24, IV, x) == Regs(0x59a8ffda, 0x47092c07, 0xabfc7920, 0x6d002f1e)
    ensures Steps(32, IV, x) == Regs(0x790a77fb, 0x726342d3, 0xa62884aa, 0x9f47e4f8)
  {
    hide Steps;
    Next(24, Regs(0x59a8ffda, 0x47092c07, 0xabfc7920, 0x6d002f1e), x, 0, 0x21e1cde6, 5, 0xb7f268cf);
    Next(25, Regs(0x6d002f1e, 0xb7f268cf, 0x47092c07, 0xabfc7920), x, 24, 0xc33707d6, 9, 0x09388eff);
    Next(26, Regs(0xabfc7920, 0x09388eff, 0xb7f268cf, 0x47092c07), x, 0, 0xf4d50d87, 14, 0xfe1623b1);
    Next(27, Regs(0x47092c07, 0xfe1623b1, 0x09388eff, 0xb7f268cf), x, 0, 0x455a14ed, 20, 0x786acb8f);
    Next(28, Regs(0xb7f268cf, 0x786acb8f, 0xfe1623b1, 0x09388eff), x, 0, 0xa9e3e905, 5, 0x790a77fb);
    Next(29, Regs(0x09388eff, 0x790a77fb, 0x786acb8f, 0xfe1623b1), x, 0, 0xfcefa3f8, 9, 0x9f47e4f8);
    Next(30, Regs(0xfe1623b1, 0x9f47e4f8, 0x790a77fb, 0x786acb8f), x, 0, 0x676f02d9, 14, 0xa62884aa);
    Next(31, Regs(0x786acb8f, 0xa62884aa, 0x9f47e4f8, 0x790a77fb), x, 0, 0x8d2a4c8a, 20, 0x726342d3);
  }

  lemma Abc32(x: seq<Word>)
    requires AbcWords(x) && Steps(32, IV, x) == Regs(0x790a77fb, 0x726342d3, 0xa62884aa, 0x9f47e4f8)
    ensures Steps(40, IV, x) == Regs(0x21b117b9, 0x5a2f5ea5, 0x3575227e, 0x6e7429d5)
  {
    hide Steps;
    Next(32, Regs(0x790a77fb, 0x726342d3, 0xa62884aa, 0x9f47e4f8), x, 0, 0xfffa3942, 4, 0xb3707ebf);
    Next(33, Regs(0x9f47e4f8, 0xb3707ebf, 0x726342d3, 0xa62884aa), x, 0, 0x8771f681, 11, 0x60127b2e);
    Next(34, Regs(0xa62884aa, 0x60127b2e, 0xb3707ebf, 0x726342d3), x, 0, 0x6d9d6122, 16, 0x8d212ff5);
    Next(35, Regs(0x726342d3, 0x8d212ff5, 0x60127b2e, 0xb3707ebf), x, 24, 0xfde5380c, 23, 0x3b0875c7);
    Next(36, Regs(0xb3707ebf, 0x3b0875c7, 0x8d212ff5, 0x60127b2e), x, 0, 0xa4beea44, 4, 0x21b117b9);
    Next(37, Regs(0x60127b2e, 0x21b117b9, 0x3b0875c7, 0x8d212ff5), x, 0, 0x4bdecfa9, 11, 0x6e7429d5);
    Next(38, Regs(0x8d212ff5, 0x6e7429d5, 0x21b117b9, 0x3b0875c7), x, 0, 0xf6bb4b60, 16, 0x3575227e);
    Next(39, Regs(0x3b0875c7, 0x3575227e, 0x6e7429d5, 0x21b117b9), x, 0, 0xbebfbc70, 23, 0x5a2f5ea5);
  }

  lemma Abc40(x: seq<Word>)
    requires AbcWords(x) && Steps(40, IV, x) == Regs(0x21b117b9, 0x5a2f5ea5, 0x3575227e, 0x6e7429d5)
    ensures Steps(48, IV, x) == Regs(0x7f2e507b, 0x7beb9700, 0x8fae6399, 0x99d9679d)
  {
    hide Steps;
    Next(40, Regs(0x21b117b9, 0x5a2f5ea5, 0x3575227e, 0x6e7429d5), x, 0, 0x289b7ec6, 4, 0x11de1779);
    Next(41, Regs(0x6e7429d5, 0x11de1779, 0x5a2f5ea5, 0x3575227e), x, 0x80636261, 0xeaa127fa, 11, 0xfadcaa38);
    Next(42, Regs(0x3575227e, 0xfadcaa38, 0x11de1779, 0x5a2f5ea5), x, 0, 0xd4ef3085, 16, 0x31c465ca);
    Next(43, Regs(0x5a2f5ea5, 0x31c465ca, 0xfadcaa38, 0x11de1779), x, 0, 0x04881d05, 23, 0x4c6124f4);
    Next(44, Regs(0x11de1779, 0x4c6124f4, 0x31c465ca, 0xfadcaa38), x, 0, 0xd9d4d039, 4, 0x7f2e507b);
    Next(45, Regs(0xfadcaa38, 0x7f2e507b, 0x4c6124f4, 0x31c465ca), x, 0, 0xe6db99e5, 11, 0x99d9679d);
    Next(46, Regs(0x31c465ca, 0x99d9679d, 0x7f2e507b, 0x4c6124f4), x, 0, 0x1fa27cf8, 16, 0x8fae6399);
    Next(47, Regs(0x4c6124f4, 0x8fae6399, 0x99d9679d, 0x7f2e507b), x, 0, 0xc4ac5665, 23, 0x7beb9700);
  }

  lemma Abc48(x: seq<Word>)
    requires AbcWords(x) && Steps(48, IV, x) == Regs(0x7f2e507b, 0x7beb9700, 0x8fae6399, 0x99d9679d)
    ensures Steps(56, IV, x) == Regs(0x06cc5e8a, 0x3bfa2c27, 0x7d632dd0, 0x5b0d97aa)
  {
    hide Steps;
    Next(48, Regs(0x7f2e507b, 0x7beb9700, 0x8fae6399, 0x99d9679d), x, 0x80636261, 0xf4292244, 6, 0x7b201df8);
    Next(49, Regs(0x99d9679d, 0x7b201df8, 0x7beb9700, 0x8fae6399), x, 0, 0x432aff97, 10, 0xf4e8e96e);
    Next(50, Regs(0x8fae6399, 0xf4e8e96e, 0x7b201df8, 0x7beb9700), x, 24, 0xab9423a7, 15, 0xb298cefd);
    Next(51, Regs(0x7beb9700, 0xb298cefd, 0xf4e8e96e, 0x7b201df8), x, 0, 0xfc93a039, 21, 0x8bf025c4);
    Next(52, Regs(0x7b201df8, 0x8bf025c4, 0xb298cefd, 0xf4e8e96e), x, 0, 0x655b59c3, 6, 0x06cc5e8a);
    Next(53, Regs(0xf4e8e96e, 0x06cc5e8a, 0x8bf025c4, 0xb298cefd), x, 0, 0x8f0ccc92, 10, 0x5b0d97aa);
    Next(54, Regs(0xb298cefd, 0x5b0d97aa, 0x06cc5e8a, 0x8bf025c4), x, 0, 0xffeff47d, 15, 0x7d632dd0);
    Next(55, Regs(0x8bf025c4, 0x7d632dd0, 0x5b0d97aa, 0x06cc5e8a), x, 0, 0x85845dd1, 21, 0x3bfa2c27);
  }

  lemma Abc56(x: seq<Word>)
    requires AbcWords(x) && Steps(56, IV, x) == Regs(0x06cc5e8a, 0x3bfa2c27, 0x7d632dd0, 0x5b0d97aa)
    ensures Steps(64, IV, x) == Regs(0x310ade8f, 0xc08226b3, 0xe484b9d8, 0x624d8cb2)
  {
    hide Steps;
    Next(56, Regs(0x06cc5e8a, 0x3bfa2c27, 0x7d632dd0, 0x5b0d97aa), x, 0, 0x6fa87e4f, 6, 0x7f81cc35);
    Next(57, Regs(0x5b0d97aa, 0x7f81cc35, 0x3bfa2c27, 0x7d632dd0), x, 0, 0xfe2ce6e0, 10, 0x094454ab);
    Next(58, Regs(0x7d632dd0, 0x094454ab, 0x7f81cc35, 0x3bfa2c27), x, 0, 0xa3014314, 15, 0x4f9dbe3f);
    Next(59, Regs(0x3bfa2c27, 0x4f9dbe3f, 0x094454ab, 0x7f81cc35), x, 0, 0x4e0811a1, 21, 0x7327d604);
    Next(60, Regs(0x7f81cc35, 0x7327d604, 0x4f9dbe3f, 0x094454ab), x, 0, 0xf7537e82, 6, 0x310ade8f);
    Next(61, Regs(0x094454ab, 0x310ade8f, 0x7327d604, 0x4f9dbe3f), x, 0, 0xbd3af235, 10, 0x624d8cb2);
    Next(62, Regs(0x4f9dbe3f, 0x624d8cb2, 0x310ade8f, 0x7327d604), x, 0, 0x2ad7d2bb, 15, 0xe484b9d8);
    Next(63, Regs(0x7327d604, 0xe484b9d8, 0x624d8cb2, 0x310ade8f), x, 0, 0xeb86d391, 21, 0xc08226b3);
  }

  lemma AbcCompress(x: seq<Word>)
    requires AbcWords(x)
    ensures Compress(IV, x) == Regs(0x98500190, 0xb04fd23c, 0x7d3f96d6, 0x727fe128)
  {
    NoStep(x);
    hide Steps;
    Abc0(x);
    Abc8(x);
    Abc16(x);
    Abc24(x);
    Abc32(x);
    Abc40(x);
    Abc48(x);
    Abc56(x);
  }

  lemma NoStep(x: seq<Word>)
    requires |x| == 16
    ensures Steps(0, IV, x) == IV
  {
  }

  // ---------- the digests

  lemma KnownWord(p: seq<Byte>, i: nat, b0: Byte, b1: Byte, b2: Byte, b3: Byte, w: Word)
    requires 4 * i + 4 <= |p| && p[4 * i..4 * i + 4] == [b0, b1, b2, b3]
    requires FourBytes(b0, b1, b2, b3) == w as nat
    ensures WordAt(p, i) == w
  {
    hide FourBytes;
    var s := p[4 * i..4 * i + 4];
    assert p[4 * i] == s[0] && p[4 * i + 1] == s[1] && p[4 * i + 2] == s[2] && p[4 * i + 3] == s[3];
    assert w as nat as bv32 == w;
  }

  lemma NoBytes()
    ensures FourBytes(0, 0, 0, 0) == 0
  {
  }

  lemma NoBits()
    ensures 0 as bv32 as nat == 0
  {
  }

  lemma ZeroWord(p: seq<Byte>, i: nat)
    requires 4 * i + 4 <= |p| && p[4 * i..4 * i + 4] == [0, 0, 0, 0]
    ensures WordAt(p, i) == 0
  {
    hide FourBytes, WordAt;
    NoBytes();
    NoBits();
    KnownWord(p, i, 0, 0, 0, 0, 0);
  }

  lemma MarkWord(p: seq<Byte>, i: nat)
    requires 4 * i + 4 <= |p| && p[4 * i..4 * i + 4] == [0x80, 0, 0, 0]
    ensures WordAt(p, i) == 0x80
  {
    assert FourBytes(0x80, 0, 0, 0) == 0x80 as bv32 as nat;
    KnownWord(p, i, 0x80, 0, 0, 0, 0x80);
  }

  lemma LengthWord(p: seq<Byte>, i: nat)
    requires 4 * i + 4 <= |p| && p[4 * i..4 * i + 4] == [24, 0, 0, 0]
    ensures WordAt(p, i) == 24
  {
    assert FourBytes(24, 0, 0, 0) == 24 as bv32 as nat;
    KnownWord(p, i, 24, 0, 0, 0, 24);
  }

  lemma AbcWord(p: seq<Byte>, i: nat)
    requires 4 * i + 4 <= |p| && p[4 * i..4 * i + 4] == [97, 98, 99, 0x80]
    ensures WordAt(p, i) == 0x80636261
  {
    assert FourBytes(97, 98, 99, 0x80) == 0x80636261 as bv32 as nat;
    KnownWord(p, i, 97, 98, 99, 0x80, 0x80636261);
  }

  ghost predicate EmptyBytes(p: seq<Byte>) {
    |p| == 64 && p[0] == 0x80 && forall k :: 1 <= k < 64 ==> p[k] == 0
  }

  lemma EmptyPadded()
    ensures EmptyBytes([] + Padding(0))
  {
  }

  lemma EmptyBlock(p: seq<Byte>)
    requires EmptyBytes(p)
    ensures EmptyWords(Words(p))
  {
    hide WordAt, FourBytes;
    MarkWord(p, 0);
    forall j | 1 <= j < 16 ensures WordAt(p, j) == 0 {
      ZeroWord(p, j);
    }
  }

  lemma EmptyOutput()
    ensures Output(Regs(0xd98c1dd4, 0x04b2008f, 0x980980e9, 0x7e42f8ec)) ==
      [0xd4, 0x1d, 0x8c, 0xd9, 0x8f, 0x00, 0xb2, 0x04,
       0xe9, 0x80, 0x09, 0x98, 0xec, 0xf8, 0x42, 0x7e]
  {
    assert WordBytes(0xd98c1dd4) == [0xd4, 0x1d, 0x8c, 0xd9];
    assert WordBytes(0x04b2008f) == [0x8f, 0x00, 0xb2, 0x04];
    assert WordBytes(0x980980e9) == [0xe9, 0x80, 0x09, 0x98];
    assert WordBytes(0x7e42f8ec) == [0xec, 0xf8, 0x42, 0x7e];
  }

  /** MD5 ("") = d41d8cd98f00b204e9800998ecf8427e */
  lemma DigestOfEmpty()
    ensures Digest([]) ==
      [0xd4, 0x1d, 0x8c, 0xd9, 0x8f, 0x00, 0xb2, 0x04,
       0xe9, 0x80, 0x09, 0x98, 0xec, 0xf8, 0x42, 0x7e]
  {
    hide Compress, Words, Output, EmptyWords, EmptyBytes, Padding;
    var p: seq<Byte> := [] + Padding(0);
    EmptyPadded();
    EmptyBlock(p);
    OneBlock(IV, p);
    EmptyCompress(Words(p));
    EmptyOutput();
  }

  ghost predicate AbcBytes(p: seq<Byte>) {
    |p| == 64 && p[0] == 97 && p[1] == 98 && p[2] == 99 && p[3] == 0x80 && p[56] == 24 &&
    forall k :: 4 <= k < 64 && k != 56 ==> p[k] == 0
  }

  lemma AbcPadded()
    ensures AbcBytes([97, 98, 99] + Padding(3))
  {
  }

  lemma AbcBlock(p: seq<Byte>)
    requires AbcBytes(p)
    ensures AbcWords(Words(p))
  {
    hide WordAt, FourBytes;
    AbcWord(p, 0);
    LengthWord(p, 14);
    forall j | 1 <= j < 16 && j != 14 ensures WordAt(p, j) == 0 {
      ZeroWord(p, j);
    }
  }

  lemma AbcOutput()
    ensures Output(Regs(0x98500190, 0xb04fd23c, 0x7d3f96d6, 0x727fe128)) ==
      [0x90, 0x01, 0x50, 0x98, 0x3c, 0xd2, 0x4f, 0xb0,
       0xd6, 0x96, 0x3f, 0x7d, 0x28, 0xe1, 0x7f, 0x72]
  {
    assert WordBytes(0x98500190) == [0x90, 0x01, 0x50, 0x98];
    assert WordBytes(0xb04fd23c) == [0x3c, 0xd2, 0x4f, 0xb0];
    assert WordBytes(0x7d3f96d6) == [0xd6, 0x96, 0x3f, 0x7d];
    assert WordBytes(0x727fe128) == [0x28, 0xe1, 0x7f, 0x72];
  }

  /** MD5 ("abc") = 900150983cd24fb0d6963f7d28e17f72 */
  lemma DigestOfAbc()
    ensures Digest([97, 98, 99]) ==
      [0x90, 0x01, 0x50, 0x98, 0x3c, 0xd2, 0x4f, 0xb0,
       0xd6, 0x96, 0x3f, 0x7d, 0x28, 0xe1, 0x7f, 0x72]
  {
    hide Compress, Words, Output, AbcWords, AbcBytes, Padding;
    var p: seq<Byte> := [97, 98, 99] + Padding(3);
    AbcPadded();
    AbcBlock(p);
    OneBlock(IV, p);
    AbcCompress(Words(p));
    AbcOutput();
  }
}
