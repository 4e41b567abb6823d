/** Examples of section A.5 of RFC 1321, worked through the rounds of the standard: they
    settle the constants, the order of bytes and the direction of the rotations. */
module Md5Examples {
  import opened Digests
  import opened Md5Blocks
  import opened Md5

  // ---------- the numbers of the rounds ----------

  lemma Numbers1()
    ensures T(0) == 0xd76aa478 && Shift(0) == 7 && Index(0) == 0
    ensures T(1) == 0xe8c7b756 && Shift(1) == 12 && Index(1) == 1
    ensures T(2) == 0x242070db && Shift(2) == 17 && Index(2) == 2
    ensures T(3) == 0xc1bdceee && Shift(3) == 22 && Index(3) == 3
    ensures T(4) == 0xf57c0faf && Shift(4) == 7 && Index(4) == 4
    ensures T(5) == 0x4787c62a && Shift(5) == 12 && Index(5) == 5
    ensures T(6) == 0xa8304613 && Shift(6) == 17 && Index(6) == 6
    ensures T(7) == 0xfd469501 && Shift(7) == 22 && Index(7) == 7
    ensures T(8) == 0x698098d8 && Shift(8) == 7 && Index(8) == 8
    ensures T(9) == 0x8b44f7af && Shift(9) == 12 && Index(9) == 9
    ensures T(10) == 0xffff5bb1 && Shift(10) == 17 && Index(10) == 10
    ensures T(11) == 0x895cd7be && Shift(11) == 22 && Index(11) == 11
    ensures T(12) == 0x6b901122 && Shift(12) == 7 && Index(12) == 12
    ensures T(13) == 0xfd987193 && Shift(13) == 12 && Index(13) == 13
    ensures T(14) == 0xa679438e && Shift(14) == 17 && Index(14) == 14
    ensures T(15) == 0x49b40821 && Shift(15) == 22 && Index(15) == 15
  {
  }

  lemma Numbers2()
    ensures T(16) == 0xf61e2562 && Shift(16) == 5 && Index(16) == 1
    ensures T(17) == 0xc040b340 && Shift(17) == 9 && Index(17) == 6
    ensures T(18) == 0x265e5a51 && Shift(18) == 14 && Index(18) == 11
    ensures T(19) == 0xe9b6c7aa && Shift(19) == 20 && Index(19) == 0
    ensures T(20) == 0xd62f105d && Shift(20) == 5 && Index(20) == 5
    ensures T(21) == 0x02441453 && Shift(21) == 9 && Index(21) == 10
    ensures T(22) == 0xd8a1e681 && Shift(22) == 14 && Index(22) == 15
    ensures T(23) == 0xe7d3fbc8 && Shift(23) == 20 && Index(23) == 4
    ensures T(24) == 0x21e1cde6 && Shift(24) == 5 && Index(24) == 9
    ensures T(25) == 0xc33707d6 && Shift(25) == 9 && Index(25) == 14
    ensures T(26) == 0xf4d50d87 && Shift(26) == 14 && Index(26) == 3
    ensures T(27) == 0x455a14ed && Shift(27) == 20 && Index(27) == 8
    ensures T(28) == 0xa9e3e905 && Shift(28) == 5 && Index(28) == 13
    ensures T(29) == 0xfcefa3f8 && Shift(29) == 9 && Index(29) == 2
    ensures T(30) == 0x676f02d9 && Shift(30) == 14 && Index(30) == 7
    ensures T(31) == 0x8d2a4c8a && Shift(31) == 20 && Index(31) == 12
  {
  }

  lemma Numbers3()
    ensures T(32) == 0xfffa3942 && Shift(32) == 4 && Index(32) == 5
    ensures T(33) == 0x8771f681 && Shift(33) == 11 && Index(33) == 8
    ensures T(34) == 0x6d9d6122 && Shift(34) == 16 && Index(34) == 11
    ensures T(35) == 0xfde5380c && Shift(35) == 23 && Index(35) == 14
    ensures T(36) == 0xa4beea44 && Shift(36) == 4 && Index(36) == 1
    ensures T(37) == 0x4bdecfa9 && Shift(37) == 11 && Index(37) == 4
    ensures T(38) == 0xf6bb4b60 && Shift(38) == 16 && Index(38) == 7
    ensures T(39) == 0xbebfbc70 && Shift(39) == 23 && Index(39) == 10
    ensures T(40) == 0x289b7ec6 && Shift(40) == 4 && Index(40) == 13
    ensures T(41) == 0xeaa127fa && Shift(41) == 11 && Index(41) == 0
    ensures T(42) == 0xd4ef3085 && Shift(42) == 16 && Index(42) == 3
    ensures T(43) == 0x04881d05 && Shift(43) == 23 && Index(43) == 6
    ensures T(44) == 0xd9d4d039 && Shift(44) == 4 && Index(44) == 9
    ensures T(45) == 0xe6db99e5 && Shift(45) == 11 && Index(45) == 12
    ensures T(46) == 0x1fa27cf8 && Shift(46) == 16 && Index(46) == 15
    ensures T(47) == 0xc4ac5665 && Shift(47) == 23 && Index(47) == 2
  {
  }

  lemma Numbers4()
    ensures T(48) == 0xf4292244 && Shift(48) == 6 && Index(48) == 0
    ensures T(49) == 0x432aff97 && Shift(49) == 10 && Index(49) == 7
    ensures T(50) == 0xab9423a7 && Shift(50) == 15 && Index(50) == 14
    ensures T(51) == 0xfc93a039 && Shift(51) == 21 && Index(51) == 5
    ensures T(52) == 0x655b59c3 && Shift(52) == 6 && Index(52) == 12
    ensures T(53) == 0x8f0ccc92 && Shift(53) == 10 && Index(53) == 3
    ensures T(54) == 0xffeff47d && Shift(54) == 15 && Index(54) == 10
    ensures T(55) == 0x85845dd1 && Shift(55) == 21 && Index(55) == 1
    ensures T(56) == 0x6fa87e4f && Shift(56) == 6 && Index(56) == 8
    ensures T(57) == 0xfe2ce6e0 && Shift(57) == 10 && Index(57) == 15
    ensures T(58) == 0xa3014314 && Shift(58) == 15 && Index(58) == 6
    ensures T(59) == 0x4e0811a1 && Shift(59) == 21 && Index(59) == 13
    ensures T(60) == 0xf7537e82 && Shift(60) == 6 && Index(60) == 4
    ensures T(61) == 0xbd3af235 && Shift(61) == 10 && Index(61) == 11
    ensures T(62) == 0x2ad7d2bb && Shift(62) == 15 && Index(62) == 2
    ensures T(63) == 0xeb86d391 && Shift(63) == 21 && Index(63) == 9
  {
  }

  // ---------- messages of one block ----------

  /** The words of a block that holds at most four bytes of message and the padding. */
  function X(first: bv32, bits: bv32, k: nat): bv32
  {
    if k == 0 then first else if k == 14 then bits else 0
  }

  ghost predicate Short(m: Block, first: bv32, bits: bv32)
  {
    forall k :: 0 <= k < 16 ==> Word(m, k) == X(first, bits, k)
  }

  /** Two operations on known registers. */
  lemma Pair(m: Block, first: bv32, bits: bv32, i: nat, q: Quad)
    requires i + 2 <= 64 && Short(m, first, bits)
    requires Turn(Turn(Turns(INIT, m, i), i, X(first, bits, Index(i))), i + 1, X(first, bits, Index(i + 1))) == q
    ensures Turns(INIT, m, i + 2) == q
  {
    hide Turn, Word, Index, X;
    assert Turns(INIT, m, i + 1) == Turn(Turns(INIT, m, i), i, Word(m, Index(i)));
    assert Turns(INIT, m, i + 2) == Turn(Turns(INIT, m, i + 1), i + 1, Word(m, Index(i + 1)));
  }

  lemma LengthOfNone()
    ensures Length(0) == [0] + Zeros(7)
  {
    assert Bits(0) == 0;
  }

  lemma LengthOfThree()
    ensures Length(3) == [24] + Zeros(7)
  {
    assert Bits(3) == 24;
    hide LittleEndian;
    SmallLength();
  }

  lemma SmallLength()
    ensures LittleEndian(24) == [24] + Zeros(3) && LittleEndian(0) == Zeros(4)
  {
  }

  lemma NoTurns(m: Block)
    ensures Turns(INIT, m, 0) == INIT
  {
  }

  /** A message of at most 55 bytes is padded to one block. */
  lemma OneBlockPadded(msg: seq<bv8>, m: seq<bv8>)
    requires |msg| < 56 && m == msg + [0x80] + Zeros(55 - |msg|) + Length(|msg|)
    ensures Padded(msg) == m && |m| == 64
  {
    hide Length;
    var pad := [0x80] + Zeros(55 - |msg|);
    PadIs(|msg|, pad);
    assert m == msg + pad + Length(|msg|);
  }

  lemma DigestOf(msg: seq<bv8>, m: Block, q: Quad)
    requires Padded(msg) == m && Turns(INIT, m, 64) == q
    ensures Digest(msg) == Emit(Add(q, INIT))
  {
    hide Turns, Padded, Emit, Add;
    assert m[..64] == m;
    FoldStep(Compress, INIT, m);
    FoldStep(Compress, Compress(INIT, m), m[64..]);
  }

  // ---------- the empty message ----------

  lemma Empty1(m: Block)
    requires Short(m, 0x00000080, 0)
    ensures Turns(INIT, m, 16) == Quad(0xf56c7cf1, 0xd6819c6a, 0x5aa53f75, 0x374943a7)
  {
    hide T, Shift, Index, Turns, Short;
    NoTurns(m);
    Numbers1();
    Pair(m, 0x00000080, 0, 0, Quad(0x98badcfe, 0xf59592dd, 0xa5202774, 0xefcdab89));
    Pair(m, 0x00000080, 0, 2, Quad(0xa5202774, 0x1b163203, 0xe7f06b23, 0xf59592dd));
    Pair(m, 0x00000080, 0, 4, Quad(0xe7f06b23, 0x2f35d494, 0x32033344, 0x1b163203));
    Pair(m, 0x00000080, 0, 6, Quad(0x32033344, 0x9bc13ce9, 0xf5b158db, 0x2f35d494));
    Pair(m, 0x00000080, 0, 8, Quad(0xf5b158db, 0xfce4a312, 0x3893b991, 0x9bc13ce9));
    Pair(m, 0x00000080, 0, 10, Quad(0x3893b991, 0x70768a29, 0xe1ef0576, 0xfce4a312));
    Pair(m, 0x00000080, 0, 12, Quad(0xe1ef0576, 0x374943a7, 0xf56c7cf1, 0x70768a29));
    Pair(m, 0x00000080, 0, 14, Quad(0xf56c7cf1, 0xd6819c6a, 0x5aa53f75, 0x374943a7));
  }

  lemma Empty2(m: Block)
    requires Short(m, 0x00000080, 0) && Turns(INIT, m, 16) == Quad(0xf56c7cf1, 0xd6819c6a, 0x5aa53f75, 0x374943a7)
    ensures Turns(INIT, m, 32) == Quad(0x13707036, 0xa2205f1f, 0x1c31c384, 0xae7813db)
  {
    hide T, Shift, Index, Turns, Short;
    Numbers2();
    Pair(m, 0x00000080, 0, 16, Quad(0x5aa53f75, 0x7bd57a3a, 0x1c7d7513, 0xd6819c6a));
    Pair(m, 0x00000080, 0, 18, Quad(0x1c7d7513, 0xbd782e17, 0xc095f13a, 0x7bd57a3a));
    Pair(m, 0x00000080, 0, 20, Quad(0xc095f13a, 0x68b7b3e3, 0x3d1e3e6c, 0xbd782e17));
    Pair(m, 0x00000080, 0, 22, Quad(0x3d1e3e6c, 0xe422531a, 0xeb41643e, 0x68b7b3e3));
    Pair(m, 0x00000080, 0, 24, Quad(0xeb41643e, 0xd28c77c2, 0x306ec122, 0xe422531a));
    Pair(m, 0x00000080, 0, 26, Quad(0x306ec122, 0xa0572807, 0xa3c663da, 0xd28c77c2));
    Pair(m, 0x00000080, 0, 28, Quad(0xa3c663da, 0xae7813db, 0x13707036, 0xa0572807));
    Pair(m, 0x00000080, 0, 30, Quad(0x13707036, 0xa2205f1f, 0x1c31c384, 0xae7813db));
  }

  lemma Empty3(m: Block)
    requires Short(m, 0x00000080, 0) && Turns(INIT, m, 32) == Quad(0x13707036, 0xa2205f1f, 0x1c31c384, 0xae7813db)
    ensures Turns(INIT, m, 48) == Quad(0x3f55edfd, 0xca7d2dbd, 0x68d84ea2, 0x22a31f54)
  {
    hide T, Shift, Index, Turns, Short;
    Numbers3();
    Pair(m, 0x00000080, 0, 32, Quad(0x1c31c384, 0xc3689f5b, 0xdf63eaa1, 0xa2205f1f));
    Pair(m, 0x00000080, 0, 34, Quad(0xdf63eaa1, 0x004b6669, 0x12f3e755, 0xc3689f5b));
    Pair(m, 0x00000080, 0, 36, Quad(0x12f3e755, 0xabc34e16, 0x5f7a9b2e, 0x004b6669));
    Pair(m, 0x00000080, 0, 38, Quad(0x5f7a9b2e, 0xc5dc8c15, 0x91ca4cb7, 0xabc34e16));
    Pair(m, 0x00000080, 0, 40, Quad(0x91ca4cb7, 0x76fd93d4, 0x4497169d, 0xc5dc8c15));
    Pair(m, 0x00000080, 0, 42, Quad(0x4497169d, 0x0fe32453, 0xfd95f243, 0x76fd93d4));
    Pair(m, 0x00000080, 0, 44, Quad(0xfd95f243, 0x22a31f54, 0x3f55edfd, 0x0fe32453));
    Pair(m, 0x00000080, 0, 46, Quad(0x3f55edfd, 0xca7d2dbd, 0x68d84ea2, 0x22a31f54));
  }

  lemma Empty4(m: Block)
    requires Short(m, 0x00000080, 0) && Turns(INIT, m, 48) == Quad(0x3f55edfd, 0xca7d2dbd, 0x68d84ea2, 0x22a31f54)
    ensures Turns(INIT, m, 64) == Quad(0x7246fad3, 0x14e45506, 0xff4ea3eb, 0x6e10a476)
  {
    hide T, Shift, Index, Turns, Short;
    Numbers4();
    Pair(m, 0x00000080, 0, 48, Quad(0x68d84ea2, 0x1688dc85, 0x93aa2577, 0xca7d2dbd));
    Pair(m, 0x00000080, 0, 50, Quad(0x93aa2577, 0x561e0689, 0xcd85b8cb, 0x1688dc85));
    Pair(m, 0x00000080, 0, 52, Quad(0xcd85b8cb, 0x3450f42b, 0x5625a114, 0x561e0689));
    Pair(m, 0x00000080, 0, 54, Quad(0x5625a114, 0x1e77fa61, 0x392ad0d0, 0x3450f42b));
    Pair(m, 0x00000080, 0, 56, Quad(0x392ad0d0, 0xdfce00bc, 0x474a9c8c, 0x1e77fa61));
    Pair(m, 0x00000080, 0, 58, Quad(0x474a9c8c, 0x30130182, 0x36594b14, 0xdfce00bc));
    Pair(m, 0x00000080, 0, 60, Quad(0x36594b14, 0x6e10a476, 0x7246fad3, 0x30130182));
    Pair(m, 0x00000080, 0, 62, Quad(0x7246fad3, 0x14e45506, 0xff4ea3eb, 0x6e10a476));
  }

  lemma EmptyBlock(m: Block)
    requires m == [0x80] + Zeros(55) + [0x00] + Zeros(7)
    ensures Short(m, 0x00000080, 0)
  {
    forall k | 0 <= k < 16
      ensures Word(m, k) == X(0x00000080, 0, k)
    {
    }
  }

  lemma EmptyBytes()
    ensures Emit(Add(Quad(0x7246fad3, 0x14e45506, 0xff4ea3eb, 0x6e10a476), INIT)) == [
      0xd4, 0x1d, 0x8c, 0xd9, 0x8f, 0x00, 0xb2, 0x04,
      0xe9, 0x80, 0x09, 0x98, 0xec, 0xf8, 0x42, 0x7e]
  {
  }

  lemma Empty()
    ensures Digest([]) == [
      0xd4, 0x1d, 0x8c, 0xd9, 0x8f, 0x00, 0xb2, 0x04,
      0xe9, 0x80, 0x09, 0x98, 0xec, 0xf8, 0x42, 0x7e]
  {
    hide *;
    var m := [0x80] + Zeros(55) + [0x00] + Zeros(7);
    LengthOfNone();
    OneBlockPadded([], m);
    EmptyBlock(m);
    Empty1(m);
    Empty2(m);
    Empty3(m);
    Empty4(m);
    DigestOf([], m, Quad(0x7246fad3, 0x14e45506, 0xff4ea3eb, 0x6e10a476));
    EmptyBytes();
  }

  // ---------- abc ----------

  lemma Abc1(m: Block)
    requires Short(m, 0x80636261, 24)
    ensures Turns(INIT, m, 16) == Quad(0xdda9b9a6, 0x72aff2e0, 0xe396856b, 0xa1051895)
  {
    hide T, Shift, Index, Turns, Short;
    NoTurns(m);
    Numbers1();
    Pair(m, 0x80636261, 24, 0, Quad(0x98badcfe, 0x344a8432, 0xd6d117b4, 0xefcdab89));
    Pair(m, 0x80636261, 24, 2, Quad(0xd6d117b4, 0x7ad956f2, 0x2f6fbd72, 0x344a8432));
    Pair(m, 0x80636261, 24, 4, Quad(0x2f6fbd72, 0x8bac3051, 0xc73741ef, 0x7ad956f2));
    Pair(m, 0x80636261, 24, 6, Quad(0xc73741ef, 0x928d99f6, 0x207dc67b, 0x8bac3051));
    Pair(m, 0x80636261, 24, 8, Quad(0x207dc67b, 0x74e2f284, 0x854b3712, 0x928d99f6));
    Pair(m, 0x80636261, 24, 10, Quad(0x854b3712, 0x5ed49596, 0x3020401c, 0x74e2f284));
    Pair(m, 0x80636261, 24, 12, Quad(0x3020401c, 0xa1051895, 0xdda9b9a6, 0x5ed49596));
    Pair(m, 0x80636261, 24, 14, Quad(0xdda9b9a6, 0x72aff2e0, 0xe396856b, 0xa1051895));
  }

  lemma Abc2(m: Block)
    requires Short(m, 0x80636261, 24) && Turns(INIT, m, 16) == Quad(0xdda9b9a6, 0x72aff2e0, 0xe396856b, 0xa1051895)
    ensures Turns(INIT, m, 32) == Quad(0x790a77fb, 0x726342d3, 0xa62884aa, 0x9f47e4f8)
  {
    hide T, Shift, Index, Turns, Short;
    Numbers2();
    Pair(m, 0x80636261, 24, 16, Quad(0xe396856b, 0x4a1d804e, 0x3e9e9126, 0x72aff2e0));
    Pair(m, 0x80636261, 24, 18, Quad(0x3e9e9126, 0xb5b204e4, 0xe25e1652, 0x4a1d804e));
    Pair(m, 0x80636261, 24, 20, Quad(0xe25e1652, 0x6d002f1e, 0x59a8ffda, 0xb5b204e4));
    Pair(m, 0x80636261, 24, 22, Quad(0x59a8ffda, 0x47092c07, 0xabfc7920, 0x6d002f1e));
    Pair(m, 0x80636261, 24, 24, Quad(0xabfc7920, 0x09388eff, 0xb7f268cf, 0x47092c07));
    Pair(m, 0x80636261, 24, 26, Quad(0xb7f268cf, 0x786acb8f, 0xfe1623b1, 0x09388eff));
    Pair(m, 0x80636261, 24, 28, Quad(0xfe1623b1, 0x9f47e4f8, 0x790a77fb, 0x786acb8f));
    Pair(m, 0x80636261, 24, 30, Quad(0x790a77fb, 0x726342d3, 0xa62884aa, 0x9f47e4f8));
  }

  lemma Abc3(m: Block)
    requires Short(m, 0x80636261, 24) && Turns(INIT, m, 32) == Quad(0x790a77fb, 0x726342d3, 0xa62884aa, 0x9f47e4f8)
    ensures Turns(INIT, m, 48) == Quad(0x7f2e507b, 0x7beb9700, 0x8fae6399, 0x99d9679d)
  {
    hide T, Shift, Index, Turns, Short;
    Numbers3();
    Pair(m, 0x80636261, 24, 32, Quad(0xa62884aa, 0x60127b2e, 0xb3707ebf, 0x726342d3));
    Pair(m, 0x80636261, 24, 34, Quad(0xb3707ebf, 0x3b0875c7, 0x8d212ff5, 0x60127b2e));
    Pair(m, 0x80636261, 24, 36, Quad(0x8d212ff5, 0x6e7429d5, 0x21b117b9, 0x3b0875c7));
    Pair(m, 0x80636261, 24, 38, Quad(0x21b117b9, 0x5a2f5ea5, 0x3575227e, 0x6e7429d5));
    Pair(m, 0x80636261, 24, 40, Quad(0x3575227e, 0xfadcaa38, 0x11de1779, 0x5a2f5ea5));
    Pair(m, 0x80636261, 24, 42, Quad(0x11de1779, 0x4c6124f4, 0x31c465ca, 0xfadcaa38));
    Pair(m, 0x80636261, 24, 44, Quad(0x31c465ca, 0x99d9679d, 0x7f2e507b, 0x4c6124f4));
    Pair(m, 0x80636261, 24, 46, Quad(0x7f2e507b, 0x7beb9700, 0x8fae6399, 0x99d9679d));
  }

  lemma Abc4(m: Block)
    requires Short(m, 0x80636261, 24) && Turns(INIT, m, 48) == Quad(0x7f2e507b, 0x7beb9700, 0x8fae6399, 0x99d9679d)
    ensures Turns(INIT, m, 64) == Quad(0x310ade8f, 0xc08226b3, 0xe484b9d8, 0x624d8cb2)
  {
    hide T, Shift, Index, Turns, Short;
    Numbers4();
    Pair(m, 0x80636261, 24, 48, Quad(0x8fae6399, 0xf4e8e96e, 0x7b201df8, 0x7beb9700));
    Pair(m, 0x80636261, 24, 50, Quad(0x7b201df8, 0x8bf025c4, 0xb298cefd, 0xf4e8e96e));
    Pair(m, 0x80636261, 24, 52, Quad(0xb298cefd, 0x5b0d97aa, 0x06cc5e8a, 0x8bf025c4));
    Pair(m, 0x80636261, 24, 54, Quad(0x06cc5e8a, 0x3bfa2c27, 0x7d632dd0, 0x5b0d97aa));
    Pair(m, 0x80636261, 24, 56, Quad(0x7d632dd0, 0x094454ab, 0x7f81cc35, 0x3bfa2c27));
    Pair(m, 0x80636261, 24, 58, Quad(0x7f81cc35, 0x7327d604, 0x4f9dbe3f, 0x094454ab));
    Pair(m, 0x80636261, 24, 60, Quad(0x4f9dbe3f, 0x624d8cb2, 0x310ade8f, 0x7327d604));
    Pair(m, 0x80636261, 24, 62, Quad(0x310ade8f, 0xc08226b3, 0xe484b9d8, 0x624d8cb2));
  }

  lemma AbcBlock(m: Block)
    requires m == [0x61, 0x62, 0x63, 0x80] + Zeros(52) + [0x18] + Zeros(7)
    ensures Short(m, 0x80636261, 24)
  {
    forall k | 0 <= k < 16
      ensures Word(m, k) == X(0x80636261, 24, k)
    {
    }
  }

  lemma AbcBytes()
    ensures Emit(Add(Quad(0x310ade8f, 0xc08226b3, 0xe484b9d8, 0x624d8cb2), INIT)) == [
      0x90, 0x01, 0x50, 0x98, 0x3c, 0xd2, 0x4f, 0xb0,
      0xd6, 0x96, 0x3f, 0x7d, 0x28, 0xe1, 0x7f, 0x72]
  {
  }

  lemma Abc()
    ensures Digest([0x61, 0x62, 0x63]) == [
      0x90, 0x01, 0x50, 0x98, 0x3c, 0xd2, 0x4f, 0xb0,
      0xd6, 0x96, 0x3f, 0x7d, 0x28, 0xe1, 0x7f, 0x72]
  {
    hide *;
    var m := [0x61, 0x62, 0x63, 0x80] + Zeros(52) + [0x18] + Zeros(7);
    LengthOfThree();
    OneBlockPadded([0x61, 0x62, 0x63], m);
    AbcBlock(m);
    Abc1(m);
    Abc2(m);
    Abc3(m);
    Abc4(m);
    DigestOf([0x61, 0x62, 0x63], m, Quad(0x310ade8f, 0xc08226b3, 0xe484b9d8, 0x624d8cb2));
    AbcBytes();
  }

}
