/** The digest of "abc", from the examples NIST publishes for FIPS 180. */
module Sha1Example {
  import opened Sha1Spec
  import opened Sha1Transform

  // ---- The block ------------------------------------------------------------------------------

  const ABC: seq<Byte> := [0x61, 0x62, 0x63]

  /** The three bytes, the bit behind them, and 24, their length in bits, at the end. */
  lemma BlockOfAbc()
    ensures var p := Pad(ABC);
            && |p| == 64 && p[0] == 0x61 && p[1] == 0x62 && p[2] == 0x63 && p[3] == 0x80 && p[63] == 24
            && forall i :: 4 <= i < 63 ==> p[i] == 0
  {
    hide LengthField;
    LengthOfAbc();
  }

  lemma LengthOfAbc()
    ensures var l := LengthField(3); |l| == 8 && l[7] == 24 && forall i :: 0 <= i < 7 ==> l[i] == 0
  {
    assert Digit(24, 0) == 24;
    assert DigitByte(24, 0) == 24;
    forall k: nat | 0 < k < 8
      ensures DigitByte(24, k) == 0
    {
      NoDigits(k - 1);
    }
  }

  lemma {:induction false} NoDigits(k: nat)
    ensures Digit(0, k) == 0
    decreases k
  {
    if k > 0 {
      NoDigits(k - 1);
    }
  }

  lemma WordsOfAbc()
    ensures |Pad(ABC)| == 64
    ensures var m := Words(Pad(ABC)); m[0] == 0x61626380 && m[15] == 24 && forall i :: 1 <= i < 15 ==> m[i] == 0
  {
    BlockOfAbc();
    hide Pad;
  }

  // ---- The schedule ---------------------------------------------------------------------------

  ghost predicate FirstWords(w: seq<Word>) {
    && |w| == 80
    && w[0] == 0x61626380 && w[1] == 0x00000000 && w[2] == 0x00000000 && w[3] == 0x00000000
    && w[4] == 0x00000000 && w[5] == 0x00000000 && w[6] == 0x00000000 && w[7] == 0x00000000
    && w[8] == 0x00000000 && w[9] == 0x00000000 && w[10] == 0x00000000 && w[11] == 0x00000000
    && w[12] == 0x00000000 && w[13] == 0x00000000 && w[14] == 0x00000000 && w[15] == 0x00000018
    && w[16] == 0xc2c4c700 && w[17] == 0x00000000 && w[18] == 0x00000030 && w[19] == 0x85898e01
  }

  ghost predicate SecondWords(w: seq<Word>) {
    && |w| == 80
    && w[20] == 0x00000000 && w[21] == 0x00000060 && w[22] == 0x0b131c03 && w[23] == 0x00000030
    && w[24] == 0x85898ec1 && w[25] == 0x16263806 && w[26] == 0x00000000 && w[27] == 0x00000180
    && w[28] == 0x2c4c700c && w[29] == 0x000000f0 && w[30] == 0x93afb507 && w[31] == 0x5898e048
    && w[32] == 0x8e9a9202 && w[33] == 0x00000600 && w[34] == 0xb131c0f0 && w[35] == 0x16263bc6
    && w[36] == 0x4ebed41e && w[37] == 0x626380a1 && w[38] == 0x16263806 && w[39] == 0x000018c0
  }

  ghost predicate ThirdWords(w: seq<Word>) {
    && |w| == 80
    && w[40] == 0xd2e138c4 && w[41] == 0x00000f00 && w[42] == 0x3afb5079 && w[43] == 0x898e04e5
    && w[44] == 0xe2ba3c2b && w[45] == 0x000060c0 && w[46] == 0x053a37cd && w[47] == 0x74458547
    && w[48] == 0xda9415ed && w[49] == 0x26380a16 && w[50] == 0x626383a1 && w[51] == 0x4ebf54de
    && w[52] == 0x3835b44b && w[53] == 0x0000f600 && w[54] == 0x1e84c7a3 && w[55] == 0x98e04d98
    && w[56] == 0x651d16a0 && w[57] == 0x62658ca1 && w[58] == 0x458544d6 && w[59] == 0x44584cb7
  }

  ghost predicate FourthWords(w: seq<Word>) {
    && |w| == 80
    && w[60] == 0x7ba06619 && w[61] == 0x6380aea2 && w[62] == 0x0ae55269 && w[63] == 0x627b49a1
    && w[64] == 0x7cd45c9d && w[65] == 0x000f0000 && w[66] == 0xfb50753a && w[67] == 0xec6765e8
    && w[68] == 0xba3c2be2 && w[69] == 0x0060c000 && w[70] == 0x3a37cd05 && w[71] == 0x458546f4
    && w[72] == 0xb8599dd6 && w[73] == 0x380a1a26 && w[74] == 0x01e02203 && w[75] == 0xe7cc3456
    && w[76] == 0xe6e60b69 && w[77] == 0x00f60a00 && w[78] == 0x5795ef4f && w[79] == 0x822e0879
  }

  lemma FirstSchedule(w: seq<Word>)
    requires |w| == 80 && w[0] == 0x61626380 && w[15] == 24 && forall i :: 1 <= i < 15 ==> w[i] == 0
    requires forall t :: 16 <= t < 20 ==> IsNext(w, t)
    ensures FirstWords(w)
  {
    assert IsNext(w, 16) && IsNext(w, 17) && IsNext(w, 18) && IsNext(w, 19);
  }

  lemma SecondSchedule(w: seq<Word>)
    requires FirstWords(w)
    requires forall t :: 20 <= t < 40 ==> IsNext(w, t)
    ensures SecondWords(w)
  {
    assert IsNext(w, 20) && IsNext(w, 21) && IsNext(w, 22) && IsNext(w, 23);
    assert IsNext(w, 24) && IsNext(w, 25) && IsNext(w, 26) && IsNext(w, 27);
    assert IsNext(w, 28) && IsNext(w, 29) && IsNext(w, 30) && IsNext(w, 31);
    assert IsNext(w, 32) && IsNext(w, 33) && IsNext(w, 34) && IsNext(w, 35);
    assert IsNext(w, 36) && IsNext(w, 37) && IsNext(w, 38) && IsNext(w, 39);
  }

  lemma ThirdSchedule(w: seq<Word>)
    requires FirstWords(w) && SecondWords(w)
    requires forall t :: 40 <= t < 60 ==> IsNext(w, t)
    ensures ThirdWords(w)
  {
    assert IsNext(w, 40) && IsNext(w, 41) && IsNext(w, 42) && IsNext(w, 43);
    assert IsNext(w, 44) && IsNext(w, 45) && IsNext(w, 46) && IsNext(w, 47);
    assert IsNext(w, 48) && IsNext(w, 49) && IsNext(w, 50) && IsNext(w, 51);
    assert IsNext(w, 52) && IsNext(w, 53) && IsNext(w, 54) && IsNext(w, 55);
    assert IsNext(w, 56) && IsNext(w, 57) && IsNext(w, 58) && IsNext(w, 59);
  }

  lemma FourthSchedule(w: seq<Word>)
    requires SecondWords(w) && ThirdWords(w)
    requires forall t :: 60 <= t < 80 ==> IsNext(w, t)
    ensures FourthWords(w)
  {
    assert IsNext(w, 60) && IsNext(w, 61) && IsNext(w, 62) && IsNext(w, 63);
    assert IsNext(w, 64) && IsNext(w, 65) && IsNext(w, 66) && IsNext(w, 67);
    assert IsNext(w, 68) && IsNext(w, 69) && IsNext(w, 70) && IsNext(w, 71);
    assert IsNext(w, 72) && IsNext(w, 73) && IsNext(w, 74) && IsNext(w, 75);
    assert IsNext(w, 76) && IsNext(w, 77) && IsNext(w, 78) && IsNext(w, 79);
  }

  // ---- The rounds -----------------------------------------------------------------------------

  lemma RoundsTo10(w: seq<Word>)
    requires FirstWords(w)
    ensures Rounds(H0, w, 10) == Vars(0x8351f929, 0x4b6ae328, 0x27a301f5, 0x664f8c30, 0x0ff1f290)
  {
    assert Rounds(H0, w, 1) == Vars(0x0116fc33, 0x67452301, 0x7bf36ae2, 0x98badcfe, 0x10325476);
    assert Rounds(H0, w, 2) == Vars(0x8990536d, 0x0116fc33, 0x59d148c0, 0x7bf36ae2, 0x98badcfe);
    assert Rounds(H0, w, 3) == Vars(0xa1390f08, 0x8990536d, 0xc045bf0c, 0x59d148c0, 0x7bf36ae2);
    assert Rounds(H0, w, 4) == Vars(0xcdd8e11b, 0xa1390f08, 0x626414db, 0xc045bf0c, 0x59d148c0);
    assert Rounds(H0, w, 5) == Vars(0xcfd499de, 0xcdd8e11b, 0x284e43c2, 0x626414db, 0xc045bf0c);
    assert Rounds(H0, w, 6) == Vars(0x3fc7ca40, 0xcfd499de, 0xf3763846, 0x284e43c2, 0x626414db);
    assert Rounds(H0, w, 7) == Vars(0x993e30c1, 0x3fc7ca40, 0xb3f52677, 0xf3763846, 0x284e43c2);
    assert Rounds(H0, w, 8) == Vars(0x9e8c07d4, 0x993e30c1, 0x0ff1f290, 0xb3f52677, 0xf3763846);
    assert Rounds(H0, w, 9) == Vars(0x4b6ae328, 0x9e8c07d4, 0x664f8c30, 0x0ff1f290, 0xb3f52677);
    assert Rounds(H0, w, 10) == Vars(0x8351f929, 0x4b6ae328, 0x27a301f5, 0x664f8c30, 0x0ff1f290);
  }

  lemma RoundsTo20(w: seq<Word>)
    requires FirstWords(w)
    requires Rounds(H0, w, 10) == Vars(0x8351f929, 0x4b6ae328, 0x27a301f5, 0x664f8c30, 0x0ff1f290)
    ensures Rounds(H0, w, 20) == Vars(0xfd9e1d7d, 0xdc64901d, 0x20aa99ca, 0xd3a49608, 0xc82f758b)
  {
    assert Rounds(H0, w, 11) == Vars(0xfbda9e89, 0x8351f929, 0x12dab8ca, 0x27a301f5, 0x664f8c30);
    assert Rounds(H0, w, 12) == Vars(0x63188fe4, 0xfbda9e89, 0x60d47e4a, 0x12dab8ca, 0x27a301f5);
    assert Rounds(H0, w, 13) == Vars(0x4607b664, 0x63188fe4, 0x7ef6a7a2, 0x60d47e4a, 0x12dab8ca);
    assert Rounds(H0, w, 14) == Vars(0x9128f695, 0x4607b664, 0x18c623f9, 0x7ef6a7a2, 0x60d47e4a);
    assert Rounds(H0, w, 15) == Vars(0x196bee77, 0x9128f695, 0x1181ed99, 0x18c623f9, 0x7ef6a7a2);
    assert Rounds(H0, w, 16) == Vars(0x20bdd62f, 0x196bee77, 0x644a3da5, 0x1181ed99, 0x18c623f9);
    assert Rounds(H0, w, 17) == Vars(0x4e925823, 0x20bdd62f, 0xc65afb9d, 0x644a3da5, 0x1181ed99);
    assert Rounds(H0, w, 18) == Vars(0x82aa6728, 0x4e925823, 0xc82f758b, 0xc65afb9d, 0x644a3da5);
    assert Rounds(H0, w, 19) == Vars(0xdc64901d, 0x82aa6728, 0xd3a49608, 0xc82f758b, 0xc65afb9d);
    assert Rounds(H0, w, 20) == Vars(0xfd9e1d7d, 0xdc64901d, 0x20aa99ca, 0xd3a49608, 0xc82f758b);
  }

  lemma RoundsTo30(w: seq<Word>)
    requires SecondWords(w)
    requires Rounds(H0, w, 20) == Vars(0xfd9e1d7d, 0xdc64901d, 0x20aa99ca, 0xd3a49608, 0xc82f758b)
    ensures Rounds(H0, w, 30) == Vars(0xc5fbaf5d, 0x8370b52e, 0xd2aa1365, 0x6f8d7ef5, 0x12104ee9)
  {
    assert Rounds(H0, w, 21) == Vars(0x1a37b0ca, 0xfd9e1d7d, 0x77192407, 0x20aa99ca, 0xd3a49608);
    assert Rounds(H0, w, 22) == Vars(0x33a23bfc, 0x1a37b0ca, 0x7f67875f, 0x77192407, 0x20aa99ca);
    assert Rounds(H0, w, 23) == Vars(0x21283486, 0x33a23bfc, 0x868dec32, 0x7f67875f, 0x77192407);
    assert Rounds(H0, w, 24) == Vars(0xd541f12d, 0x21283486, 0x0ce88eff, 0x868dec32, 0x7f67875f);
    assert Rounds(H0, w, 25) == Vars(0xc7567dc6, 0xd541f12d, 0x884a0d21, 0x0ce88eff, 0x868dec32);
    assert Rounds(H0, w, 26) == Vars(0x48413ba4, 0xc7567dc6, 0x75507c4b, 0x884a0d21, 0x0ce88eff);
    assert Rounds(H0, w, 27) == Vars(0xbe35fbd5, 0x48413ba4, 0xb1d59f71, 0x75507c4b, 0x884a0d21);
    assert Rounds(H0, w, 28) == Vars(0x4aa84d97, 0xbe35fbd5, 0x12104ee9, 0xb1d59f71, 0x75507c4b);
    assert Rounds(H0, w, 29) == Vars(0x8370b52e, 0x4aa84d97, 0x6f8d7ef5, 0x12104ee9, 0xb1d59f71);
    assert Rounds(H0, w, 30) == Vars(0xc5fbaf5d, 0x8370b52e, 0xd2aa1365, 0x6f8d7ef5, 0x12104ee9);
  }

  lemma RoundsTo40(w: seq<Word>)
    requires SecondWords(w)
    requires Rounds(H0, w, 30) == Vars(0xc5fbaf5d, 0x8370b52e, 0xd2aa1365, 0x6f8d7ef5, 0x12104ee9)
    ensures Rounds(H0, w, 40) == Vars(0x32de1cba, 0x4c986405, 0xf718e5cf, 0x03d447f6, 0xf72eec32)
  {
    assert Rounds(H0, w, 31) == Vars(0x1267b407, 0xc5fbaf5d, 0xa0dc2d4b, 0xd2aa1365, 0x6f8d7ef5);
    assert Rounds(H0, w, 32) == Vars(0x3b845d33, 0x1267b407, 0x717eebd7, 0xa0dc2d4b, 0xd2aa1365);
    assert Rounds(H0, w, 33) == Vars(0x046faa0a, 0x3b845d33, 0xc499ed01, 0x717eebd7, 0xa0dc2d4b);
    assert Rounds(H0, w, 34) == Vars(0x2c0ebc11, 0x046faa0a, 0xcee1174c, 0xc499ed01, 0x717eebd7);
    assert Rounds(H0, w, 35) == Vars(0x21796ad4, 0x2c0ebc11, 0x811bea82, 0xcee1174c, 0xc499ed01);
    assert Rounds(H0, w, 36) == Vars(0xdcbbb0cb, 0x21796ad4, 0x4b03af04, 0x811bea82, 0xcee1174c);
    assert Rounds(H0, w, 37) == Vars(0x0f511fd8, 0xdcbbb0cb, 0x085e5ab5, 0x4b03af04, 0x811bea82);
    assert Rounds(H0, w, 38) == Vars(0xdc63973f, 0x0f511fd8, 0xf72eec32, 0x085e5ab5, 0x4b03af04);
    assert Rounds(H0, w, 39) == Vars(0x4c986405, 0xdc63973f, 0x03d447f6, 0xf72eec32, 0x085e5ab5);
    assert Rounds(H0, w, 40) == Vars(0x32de1cba, 0x4c986405, 0xf718e5cf, 0x03d447f6, 0xf72eec32);
  }

  lemma RoundsTo50(w: seq<Word>)
    requires ThirdWords(w)
    requires Rounds(H0, w, 40) == Vars(0x32de1cba, 0x4c986405, 0xf718e5cf, 0x03d447f6, 0xf72eec32)
    ensures Rounds(H0, w, 50) == Vars(0x120731c5, 0xbaf39337, 0xafab40b2, 0x2806e11b, 0x8714787c)
  {
    assert Rounds(H0, w, 41) == Vars(0xfc87dedf, 0x32de1cba, 0x53261901, 0xf718e5cf, 0x03d447f6);
    assert Rounds(H0, w, 42) == Vars(0x970a0d5c, 0xfc87dedf, 0x8cb7872e, 0x53261901, 0xf718e5cf);
    assert Rounds(H0, w, 43) == Vars(0x7f193dc5, 0x970a0d5c, 0xff21f7b7, 0x8cb7872e, 0x53261901);
    assert Rounds(H0, w, 44) == Vars(0xee1b1aaf, 0x7f193dc5, 0x25c28357, 0xff21f7b7, 0x8cb7872e);
    assert Rounds(H0, w, 45) == Vars(0x40f28e09, 0xee1b1aaf, 0x5fc64f71, 0x25c28357, 0xff21f7b7);
    assert Rounds(H0, w, 46) == Vars(0x1c51e1f2, 0x40f28e09, 0xfb86c6ab, 0x5fc64f71, 0x25c28357);
    assert Rounds(H0, w, 47) == Vars(0xa01b846c, 0x1c51e1f2, 0x503ca382, 0xfb86c6ab, 0x5fc64f71);
    assert Rounds(H0, w, 48) == Vars(0xbead02ca, 0xa01b846c, 0x8714787c, 0x503ca382, 0xfb86c6ab);
    assert Rounds(H0, w, 49) == Vars(0xbaf39337, 0xbead02ca, 0x2806e11b, 0x8714787c, 0x503ca382);
    assert Rounds(H0, w, 50) == Vars(0x120731c5, 0xbaf39337, 0xafab40b2, 0x2806e11b, 0x8714787c);
  }

  lemma RoundsTo60(w: seq<Word>)
    requires ThirdWords(w)
    requires Rounds(H0, w, 50) == Vars(0x120731c5, 0xbaf39337, 0xafab40b2, 0x2806e11b, 0x8714787c)
    ensures Rounds(H0, w, 60) == Vars(0x3f52de5a, 0x09d785fd, 0x3498bfd4, 0xf211824f, 0xd79915ab)
  {
    assert Rounds(H0, w, 51) == Vars(0x641db2ce, 0x120731c5, 0xeebce4cd, 0xafab40b2, 0x2806e11b);
    assert Rounds(H0, w, 52) == Vars(0x3847ad66, 0x641db2ce, 0x4481cc71, 0xeebce4cd, 0xafab40b2);
    assert Rounds(H0, w, 53) == Vars(0xe490436d, 0x3847ad66, 0x99076cb3, 0x4481cc71, 0xeebce4cd);
    assert Rounds(H0, w, 54) == Vars(0x27e9f1d8, 0xe490436d, 0x8e11eb59, 0x99076cb3, 0x4481cc71);
    assert Rounds(H0, w, 55) == Vars(0x7b71f76d, 0x27e9f1d8, 0x792410db, 0x8e11eb59, 0x99076cb3);
    assert Rounds(H0, w, 56) == Vars(0x5e6456af, 0x7b71f76d, 0x09fa7c76, 0x792410db, 0x8e11eb59);
    assert Rounds(H0, w, 57) == Vars(0xc846093f, 0x5e6456af, 0x5edc7ddb, 0x09fa7c76, 0x792410db);
    assert Rounds(H0, w, 58) == Vars(0xd262ff50, 0xc846093f, 0xd79915ab, 0x5edc7ddb, 0x09fa7c76);
    assert Rounds(H0, w, 59) == Vars(0x09d785fd, 0xd262ff50, 0xf211824f, 0xd79915ab, 0x5edc7ddb);
    assert Rounds(H0, w, 60) == Vars(0x3f52de5a, 0x09d785fd, 0x3498bfd4, 0xf211824f, 0xd79915ab);
  }

  lemma RoundsTo70(w: seq<Word>)
    requires FourthWords(w)
    requires Rounds(H0, w, 60) == Vars(0x3f52de5a, 0x09d785fd, 0x3498bfd4, 0xf211824f, 0xd79915ab)
    ensures Rounds(H0, w, 70) == Vars(0x3f2588c2, 0x497093c0, 0xde37534a, 0x030f7cad, 0x4405957e)
  {
    assert Rounds(H0, w, 61) == Vars(0xd756c147, 0x3f52de5a, 0x4275e17f, 0x3498bfd4, 0xf211824f);
    assert Rounds(H0, w, 62) == Vars(0x548c9cb2, 0xd756c147, 0x8fd4b796, 0x4275e17f, 0x3498bfd4);
    assert Rounds(H0, w, 63) == Vars(0xb66c020b, 0x548c9cb2, 0xf5d5b051, 0x8fd4b796, 0x4275e17f);
    assert Rounds(H0, w, 64) == Vars(0x6b61c9e1, 0xb66c020b, 0x9523272c, 0xf5d5b051, 0x8fd4b796);
    assert Rounds(H0, w, 65) == Vars(0x19dfa7ac, 0x6b61c9e1, 0xed9b0082, 0x9523272c, 0xf5d5b051);
    assert Rounds(H0, w, 66) == Vars(0x101655f9, 0x19dfa7ac, 0x5ad87278, 0xed9b0082, 0x9523272c);
    assert Rounds(H0, w, 67) == Vars(0x0c3df2b4, 0x101655f9, 0x0677e9eb, 0x5ad87278, 0xed9b0082);
    assert Rounds(H0, w, 68) == Vars(0x78dd4d2b, 0x0c3df2b4, 0x4405957e, 0x0677e9eb, 0x5ad87278);
    assert Rounds(H0, w, 69) == Vars(0x497093c0, 0x78dd4d2b, 0x030f7cad, 0x4405957e, 0x0677e9eb);
    assert Rounds(H0, w, 70) == Vars(0x3f2588c2, 0x497093c0, 0xde37534a, 0x030f7cad, 0x4405957e);
  }

  lemma RoundsTo80(w: seq<Word>)
    requires FourthWords(w)
    requires Rounds(H0, w, 70) == Vars(0x3f2588c2, 0x497093c0, 0xde37534a, 0x030f7cad, 0x4405957e)
    ensures Rounds(H0, w, 80) == Vars(0x42541b35, 0x5738d5e1, 0x21834873, 0x681e6df6, 0xd8fdf6ad)
  {
    assert Rounds(H0, w, 71) == Vars(0xc199f8c7, 0x3f2588c2, 0x125c24f0, 0xde37534a, 0x030f7cad);
    assert Rounds(H0, w, 72) == Vars(0x39859de7, 0xc199f8c7, 0x8fc96230, 0x125c24f0, 0xde37534a);
    assert Rounds(H0, w, 73) == Vars(0xedb42de4, 0x39859de7, 0xf0667e31, 0x8fc96230, 0x125c24f0);
    assert Rounds(H0, w, 74) == Vars(0x11793f6f, 0xedb42de4, 0xce616779, 0xf0667e31, 0x8fc96230);
    assert Rounds(H0, w, 75) == Vars(0x5ee76897, 0x11793f6f, 0x3b6d0b79, 0xce616779, 0xf0667e31);
    assert Rounds(H0, w, 76) == Vars(0x63f7dab7, 0x5ee76897, 0xc45e4fdb, 0x3b6d0b79, 0xce616779);
    assert Rounds(H0, w, 77) == Vars(0xa079b7d9, 0x63f7dab7, 0xd7b9da25, 0xc45e4fdb, 0x3b6d0b79);
    assert Rounds(H0, w, 78) == Vars(0x860d21cc, 0xa079b7d9, 0xd8fdf6ad, 0xd7b9da25, 0xc45e4fdb);
    assert Rounds(H0, w, 79) == Vars(0x5738d5e1, 0x860d21cc, 0x681e6df6, 0xd8fdf6ad, 0xd7b9da25);
    assert Rounds(H0, w, 80) == Vars(0x42541b35, 0x5738d5e1, 0x21834873, 0x681e6df6, 0xd8fdf6ad);
  }

  // ---- The digest -----------------------------------------------------------------------------

  lemma HashOfAbc()
    ensures |Pad(ABC)| == 64
    ensures Compress(H0, Words(Pad(ABC))) == Vars(0xa9993e36, 0x4706816a, 0xba3e2571, 0x7850c26c, 0x9cd0d89d)
  {
    WordsOfAbc();
    hide Pad, Words, Rounds, Schedule, FirstWords, SecondWords, ThirdWords, FourthWords;
    var m := Words(Pad(ABC));
    var w := Schedule(m, 80);
    ScheduleWords(m, 80);
    FirstSchedule(w);
    SecondSchedule(w);
    ThirdSchedule(w);
    FourthSchedule(w);
    RoundsTo10(w);
    RoundsTo20(w);
    RoundsTo30(w);
    RoundsTo40(w);
    RoundsTo50(w);
    RoundsTo60(w);
    RoundsTo70(w);
    RoundsTo80(w);
  }

  lemma DigestOfAbc()
    ensures Sha1(ABC) == [
              0xa9, 0x99, 0x3e, 0x36,
              0x47, 0x06, 0x81, 0x6a,
              0xba, 0x3e, 0x25, 0x71,
              0x78, 0x50, 0xc2, 0x6c,
              0x9c, 0xd0, 0xd8, 0x9d
            ]
  {
    HashOfAbc();
    hide Pad, Words, Compress;
    var p := Pad(ABC);
    assert p[..64] == p && p[64..] == [];
    assert Absorb(H0, p) == Absorb(Compress(H0, Words(p)), []);
  }
}
