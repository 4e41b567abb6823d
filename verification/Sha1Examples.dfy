/** The example of the standard for one block, the message abc, worked through the schedule and
    the eighty rounds of section 6.1.2 of FIPS 180-4: it settles the constants, the order of
    bytes and the direction of the rotations. */
module Sha1Examples {
  import opened Digests
  import opened Sha1Blocks
  import opened Sha1

  // ---------- the message schedule ----------

  /** The next word of a schedule known so far. */
  lemma Next(m: Block, t: nat, w: bv32)
    requires t >= 16 && Rotl(W(m, t - 3) ^ W(m, t - 8) ^ W(m, t - 14) ^ W(m, t - 16), 1) == w
    ensures W(m, t) == w
  {
  }

  predicate Words1(m: Block)
  {
    && W(m, 0) == 0x61626380 && W(m, 1) == 0x00000000 && W(m, 2) == 0x00000000 && W(m, 3) == 0x00000000
    && W(m, 4) == 0x00000000 && W(m, 5) == 0x00000000 && W(m, 6) == 0x00000000 && W(m, 7) == 0x00000000
    && W(m, 8) == 0x00000000 && W(m, 9) == 0x00000000 && W(m, 10) == 0x00000000 && W(m, 11) == 0x00000000
    && W(m, 12) == 0x00000000 && W(m, 13) == 0x00000000 && W(m, 14) == 0x00000000 && W(m, 15) == 0x00000018
  }

  predicate Words2(m: Block)
  {
    && W(m, 16) == 0xc2c4c700 && W(m, 17) == 0x00000000 && W(m, 18) == 0x00000030 && W(m, 19) == 0x85898e01
    && W(m, 20) == 0x00000000 && W(m, 21) == 0x00000060 && W(m, 22) == 0x0b131c03 && W(m, 23) == 0x00000030
    && W(m, 24) == 0x85898ec1 && W(m, 25) == 0x16263806 && W(m, 26) == 0x00000000 && W(m, 27) == 0x00000180
    && W(m, 28) == 0x2c4c700c && W(m, 29) == 0x000000f0 && W(m, 30) == 0x93afb507 && W(m, 31) == 0x5898e048
  }

  predicate Words3(m: Block)
  {
    && W(m, 32) == 0x8e9a9202 && W(m, 33) == 0x00000600 && W(m, 34) == 0xb131c0f0 && W(m, 35) == 0x16263bc6
    && W(m, 36) == 0x4ebed41e && W(m, 37) == 0x626380a1 && W(m, 38) == 0x16263806 && W(m, 39) == 0x000018c0
    && W(m, 40) == 0xd2e138c4 && W(m, 41) == 0x00000f00 && W(m, 42) == 0x3afb5079 && W(m, 43) == 0x898e04e5
    && W(m, 44) == 0xe2ba3c2b && W(m, 45) == 0x000060c0 && W(m, 46) == 0x053a37cd && W(m, 47) == 0x74458547
  }

  predicate Words4(m: Block)
  {
    && W(m, 48) == 0xda9415ed && W(m, 49) == 0x26380a16 && W(m, 50) == 0x626383a1 && W(m, 51) == 0x4ebf54de
    && W(m, 52) == 0x3835b44b && W(m, 53) == 0x0000f600 && W(m, 54) == 0x1e84c7a3 && W(m, 55) == 0x98e04d98
    && W(m, 56) == 0x651d16a0 && W(m, 57) == 0x62658ca1 && W(m, 58) == 0x458544d6 && W(m, 59) == 0x44584cb7
    && W(m, 60) == 0x7ba06619 && W(m, 61) == 0x6380aea2 && W(m, 62) == 0x0ae55269 && W(m, 63) == 0x627b49a1
  }

  predicate Words5(m: Block)
  {
    && W(m, 64) == 0x7cd45c9d && W(m, 65) == 0x000f0000 && W(m, 66) == 0xfb50753a && W(m, 67) == 0xec6765e8
    && W(m, 68) == 0xba3c2be2 && W(m, 69) == 0x0060c000 && W(m, 70) == 0x3a37cd05 && W(m, 71) == 0x458546f4
    && W(m, 72) == 0xb8599dd6 && W(m, 73) == 0x380a1a26 && W(m, 74) == 0x01e02203 && W(m, 75) == 0xe7cc3456
    && W(m, 76) == 0xe6e60b69 && W(m, 77) == 0x00f60a00 && W(m, 78) == 0x5795ef4f && W(m, 79) == 0x822e0879
  }

  lemma FirstWords(m: Block)
    requires m == [0x61, 0x62, 0x63, 0x80] + Zeros(59) + [24]
    ensures Words1(m)
  {
  }

  lemma MoreWords2(m: Block)
    requires Words1(m)
    ensures Words2(m)
  {
    hide W;
    Next(m, 16, 0xc2c4c700);
    Next(m, 17, 0x00000000);
    Next(m, 18, 0x00000030);
    Next(m, 19, 0x85898e01);
    Next(m, 20, 0x00000000);
    Next(m, 21, 0x00000060);
    Next(m, 22, 0x0b131c03);
    Next(m, 23, 0x00000030);
    Next(m, 24, 0x85898ec1);
    Next(m, 25, 0x16263806);
    Next(m, 26, 0x00000000);
    Next(m, 27, 0x00000180);
    Next(m, 28, 0x2c4c700c);
    Next(m, 29, 0x000000f0);
    Next(m, 30, 0x93afb507);
    Next(m, 31, 0x5898e048);
  }

  lemma MoreWords3(m: Block)
    requires Words2(m)
    ensures Words3(m)
  {
    hide W;
    Next(m, 32, 0x8e9a9202);
    Next(m, 33, 0x00000600);
    Next(m, 34, 0xb131c0f0);
    Next(m, 35, 0x16263bc6);
    Next(m, 36, 0x4ebed41e);
    Next(m, 37, 0x626380a1);
    Next(m, 38, 0x16263806);
    Next(m, 39, 0x000018c0);
    Next(m, 40, 0xd2e138c4);
    Next(m, 41, 0x00000f00);
    Next(m, 42, 0x3afb5079);
    Next(m, 43, 0x898e04e5);
    Next(m, 44, 0xe2ba3c2b);
    Next(m, 45, 0x000060c0);
    Next(m, 46, 0x053a37cd);
    Next(m, 47, 0x74458547);
  }

  lemma MoreWords4(m: Block)
    requires Words3(m)
    ensures Words4(m)
  {
    hide W;
    Next(m, 48, 0xda9415ed);
    Next(m, 49, 0x26380a16);
    Next(m, 50, 0x626383a1);
    Next(m, 51, 0x4ebf54de);
    Next(m, 52, 0x3835b44b);
    Next(m, 53, 0x0000f600);
    Next(m, 54, 0x1e84c7a3);
    Next(m, 55, 0x98e04d98);
    Next(m, 56, 0x651d16a0);
    Next(m, 57, 0x62658ca1);
    Next(m, 58, 0x458544d6);
    Next(m, 59, 0x44584cb7);
    Next(m, 60, 0x7ba06619);
    Next(m, 61, 0x6380aea2);
    Next(m, 62, 0x0ae55269);
    Next(m, 63, 0x627b49a1);
  }

  lemma MoreWords5(m: Block)
    requires Words4(m)
    ensures Words5(m)
  {
    hide W;
    Next(m, 64, 0x7cd45c9d);
    Next(m, 65, 0x000f0000);
    Next(m, 66, 0xfb50753a);
    Next(m, 67, 0xec6765e8);
    Next(m, 68, 0xba3c2be2);
    Next(m, 69, 0x0060c000);
    Next(m, 70, 0x3a37cd05);
    Next(m, 71, 0x458546f4);
    Next(m, 72, 0xb8599dd6);
    Next(m, 73, 0x380a1a26);
    Next(m, 74, 0x01e02203);
    Next(m, 75, 0xe7cc3456);
    Next(m, 76, 0xe6e60b69);
    Next(m, 77, 0x00f60a00);
    Next(m, 78, 0x5795ef4f);
    Next(m, 79, 0x822e0879);
  }

  // ---------- the rounds ----------

  lemma NoTurns(m: Block)
    ensures Turns(INIT, m, 0) == INIT
  {
  }

  /** Two rounds on known registers. */
  lemma Pair(m: Block, t: nat, h: Hash)
    requires Turn(Turn(Turns(INIT, m, t), t, W(m, t)), t + 1, W(m, t + 1)) == h
    ensures Turns(INIT, m, t + 2) == h
  {
    hide Turn, W;
    assert Turns(INIT, m, t + 1) == Turn(Turns(INIT, m, t), t, W(m, t));
    assert Turns(INIT, m, t + 2) == Turn(Turns(INIT, m, t + 1), t + 1, W(m, t + 1));
  }

  lemma Rounds1(m: Block)
    requires Words1(m)
    ensures Turns(INIT, m, 16) == Hash(0x20bdd62f, 0x196bee77, 0x644a3da5, 0x1181ed99, 0x18c623f9)
  {
    hide W, Turns;
    NoTurns(m);
    Pair(m, 0, Hash(0x8990536d, 0x0116fc33, 0x59d148c0, 0x7bf36ae2, 0x98badcfe));
    Pair(m, 2, Hash(0xcdd8e11b, 0xa1390f08, 0x626414db, 0xc045bf0c, 0x59d148c0));
    Pair(m, 4, Hash(0x3fc7ca40, 0xcfd499de, 0xf3763846, 0x284e43c2, 0x626414db));
    Pair(m, 6, Hash(0x9e8c07d4, 0x993e30c1, 0x0ff1f290, 0xb3f52677, 0xf3763846));
    Pair(m, 8, Hash(0x8351f929, 0x4b6ae328, 0x27a301f5, 0x664f8c30, 0x0ff1f290));
    Pair(m, 10, Hash(0x63188fe4, 0xfbda9e89, 0x60d47e4a, 0x12dab8ca, 0x27a301f5));
    Pair(m, 12, Hash(0x9128f695, 0x4607b664, 0x18c623f9, 0x7ef6a7a2, 0x60d47e4a));
    Pair(m, 14, Hash(0x20bdd62f, 0x196bee77, 0x644a3da5, 0x1181ed99, 0x18c623f9));
  }

  lemma Rounds2(m: Block)
    requires Words2(m) && Turns(INIT, m, 16) == Hash(0x20bdd62f, 0x196bee77, 0x644a3da5, 0x1181ed99, 0x18c623f9)
    ensures Turns(INIT, m, 32) == Hash(0x3b845d33, 0x1267b407, 0x717eebd7, 0xa0dc2d4b, 0xd2aa1365)
  {
    hide W, Turns;
    Pair(m, 16, Hash(0x82aa6728, 0x4e925823, 0xc82f758b, 0xc65afb9d, 0x644a3da5));
    Pair(m, 18, Hash(0xfd9e1d7d, 0xdc64901d, 0x20aa99ca, 0xd3a49608, 0xc82f758b));
    Pair(m, 20, Hash(0x33a23bfc, 0x1a37b0ca, 0x7f67875f, 0x77192407, 0x20aa99ca));
    Pair(m, 22, Hash(0xd541f12d, 0x21283486, 0x0ce88eff, 0x868dec32, 0x7f67875f));
    Pair(m, 24, Hash(0x48413ba4, 0xc7567dc6, 0x75507c4b, 0x884a0d21, 0x0ce88eff));
    Pair(m, 26, Hash(0x4aa84d97, 0xbe35fbd5, 0x12104ee9, 0xb1d59f71, 0x75507c4b));
    Pair(m, 28, Hash(0xc5fbaf5d, 0x8370b52e, 0xd2aa1365, 0x6f8d7ef5, 0x12104ee9));
    Pair(m, 30, Hash(0x3b845d33, 0x1267b407, 0x717eebd7, 0xa0dc2d4b, 0xd2aa1365));
  }

  lemma Rounds3(m: Block)
    requires Words3(m) && Turns(INIT, m, 32) == Hash(0x3b845d33, 0x1267b407, 0x717eebd7, 0xa0dc2d4b, 0xd2aa1365)
    ensures Turns(INIT, m, 48) == Hash(0xbead02ca, 0xa01b846c, 0x8714787c, 0x503ca382, 0xfb86c6ab)
  {
    hide W, Turns;
    Pair(m, 32, Hash(0x2c0ebc11, 0x046faa0a, 0xcee1174c, 0xc499ed01, 0x717eebd7));
    Pair(m, 34, Hash(0xdcbbb0cb, 0x21796ad4, 0x4b03af04, 0x811bea82, 0xcee1174c));
    Pair(m, 36, Hash(0xdc63973f, 0x0f511fd8, 0xf72eec32, 0x085e5ab5, 0x4b03af04));
    Pair(m, 38, Hash(0x32de1cba, 0x4c986405, 0xf718e5cf, 0x03d447f6, 0xf72eec32));
    Pair(m, 40, Hash(0x970a0d5c, 0xfc87dedf, 0x8cb7872e, 0x53261901, 0xf718e5cf));
    Pair(m, 42, Hash(0xee1b1aaf, 0x7f193dc5, 0x25c28357, 0xff21f7b7, 0x8cb7872e));
    Pair(m, 44, Hash(0x1c51e1f2, 0x40f28e09, 0xfb86c6ab, 0x5fc64f71, 0x25c28357));
    Pair(m, 46, Hash(0xbead02ca, 0xa01b846c, 0x8714787c, 0x503ca382, 0xfb86c6ab));
  }

  lemma Rounds4(m: Block)
    requires Words4(m) && Turns(INIT, m, 48) == Hash(0xbead02ca, 0xa01b846c, 0x8714787c, 0x503ca382, 0xfb86c6ab)
    ensures Turns(INIT, m, 64) == Hash(0x6b61c9e1, 0xb66c020b, 0x9523272c, 0xf5d5b051, 0x8fd4b796)
  {
    hide W, Turns;
    Pair(m, 48, Hash(0x120731c5, 0xbaf39337, 0xafab40b2, 0x2806e11b, 0x8714787c));
    Pair(m, 50, Hash(0x3847ad66, 0x641db2ce, 0x4481cc71, 0xeebce4cd, 0xafab40b2));
    Pair(m, 52, Hash(0x27e9f1d8, 0xe490436d, 0x8e11eb59, 0x99076cb3, 0x4481cc71));
    Pair(m, 54, Hash(0x5e6456af, 0x7b71f76d, 0x09fa7c76, 0x792410db, 0x8e11eb59));
    Pair(m, 56, Hash(0xd262ff50, 0xc846093f, 0xd79915ab, 0x5edc7ddb, 0x09fa7c76));
    Pair(m, 58, Hash(0x3f52de5a, 0x09d785fd, 0x3498bfd4, 0xf211824f, 0xd79915ab));
    Pair(m, 60, Hash(0x548c9cb2, 0xd756c147, 0x8fd4b796, 0x4275e17f, 0x3498bfd4));
    Pair(m, 62, Hash(0x6b61c9e1, 0xb66c020b, 0x9523272c, 0xf5d5b051, 0x8fd4b796));
  }

  lemma Rounds5(m: Block)
    requires Words5(m) && Turns(INIT, m, 64) == Hash(0x6b61c9e1, 0xb66c020b, 0x9523272c, 0xf5d5b051, 0x8fd4b796)
    ensures Turns(INIT, m, 80) == Hash(0x42541b35, 0x5738d5e1, 0x21834873, 0x681e6df6, 0xd8fdf6ad)
  {
    hide W, Turns;
    Pair(m, 64, Hash(0x101655f9, 0x19dfa7ac, 0x5ad87278, 0xed9b0082, 0x9523272c));
    Pair(m, 66, Hash(0x78dd4d2b, 0x0c3df2b4, 0x4405957e, 0x0677e9eb, 0x5ad87278));
    Pair(m, 68, Hash(0x3f2588c2, 0x497093c0, 0xde37534a, 0x030f7cad, 0x4405957e));
    Pair(m, 70, Hash(0x39859de7, 0xc199f8c7, 0x8fc96230, 0x125c24f0, 0xde37534a));
    Pair(m, 72, Hash(0x11793f6f, 0xedb42de4, 0xce616779, 0xf0667e31, 0x8fc96230));
    Pair(m, 74, Hash(0x63f7dab7, 0x5ee76897, 0xc45e4fdb, 0x3b6d0b79, 0xce616779));
    Pair(m, 76, Hash(0x860d21cc, 0xa079b7d9, 0xd8fdf6ad, 0xd7b9da25, 0xc45e4fdb));
    Pair(m, 78, Hash(0x42541b35, 0x5738d5e1, 0x21834873, 0x681e6df6, 0xd8fdf6ad));
  }

  // ---------- the digest ----------

  lemma LengthOfThree()
    ensures Length(3) == Zeros(7) + [24]
  {
    assert Bits(3) == 24;
    hide BigEndian;
    SmallLength();
  }

  lemma SmallLength()
    ensures BigEndian(0) == Zeros(4) && BigEndian(24) == Zeros(3) + [24]
  {
  }

  lemma AbcPadded(m: seq<bv8>)
    requires m == [0x61, 0x62, 0x63, 0x80] + Zeros(59) + [24]
    ensures Padded([0x61, 0x62, 0x63]) == m && |m| == 64
  {
    hide Length;
    LengthOfThree();
    var pad := [0x80] + Zeros(52);
    PadIs(3, pad);
    assert m == [0x61, 0x62, 0x63] + pad + Length(3);
  }

  lemma DigestOf(msg: seq<bv8>, m: Block, h: Hash)
    requires Padded(msg) == m && Turns(INIT, m, 80) == h
    ensures Digest(msg) == Emit(Add(INIT, h))
  {
    hide Turns, Padded, Emit, Add;
    assert m[..64] == m;
    FoldStep(Compress, INIT, m);
    FoldStep(Compress, Compress(INIT, m), m[64..]);
  }

  lemma AbcBytes()
    ensures Emit(Add(INIT, Hash(0x42541b35, 0x5738d5e1, 0x21834873, 0x681e6df6, 0xd8fdf6ad))) == [
      0xa9, 0x99, 0x3e, 0x36, 0x47, 0x06, 0x81, 0x6a, 0xba, 0x3e,
      0x25, 0x71, 0x78, 0x50, 0xc2, 0x6c, 0x9c, 0xd0, 0xd8, 0x9d]
  {
  }

  lemma Abc()
    ensures Digest([0x61, 0x62, 0x63]) == [
      0xa9, 0x99, 0x3e, 0x36, 0x47, 0x06, 0x81, 0x6a, 0xba, 0x3e,
      0x25, 0x71, 0x78, 0x50, 0xc2, 0x6c, 0x9c, 0xd0, 0xd8, 0x9d]
  {
    hide *;
    var m := [0x61, 0x62, 0x63, 0x80] + Zeros(59) + [24];
    AbcPadded(m);
    FirstWords(m);
    MoreWords2(m);
    MoreWords3(m);
    MoreWords4(m);
    MoreWords5(m);
    Rounds1(m);
    Rounds2(m);
    Rounds3(m);
    Rounds4(m);
    Rounds5(m);
    DigestOf([0x61, 0x62, 0x63], m, Hash(0x42541b35, 0x5738d5e1, 0x21834873, 0x681e6df6, 0xd8fdf6ad));
    AbcBytes();
  }
}
