/** The one-block example of FIPS 180-4: the hash of "abc", round by round. */
module Sha1Example {
  import opened Bytes
  import opened Sha1

  // ---------------------------------------------------------------- the block

  const ABC: seq<byte> := [0x61, 0x62, 0x63]

  function AbcBlock(): Chunk {
    ABC + ([0x80] + Zeros(52) + [0, 0, 0, 0, 0, 0, 0, 24])
  }

  lemma PaddedAbc()
    ensures ABC + Padding(3) == AbcBlock()
  {
    assert Gap(3) == 52;
    assert ToBe(24, 8) == [0, 0, 0, 0, 0, 0, 0, 24];
  }

  lemma LetterWord()
    ensures Word([0x61, 0x62, 0x63, 0x80]) == 0x61626380
  {
  }

  lemma ZeroWord()
    ensures Word([0, 0, 0, 0]) == 0
  {
  }

  lemma LengthWord()
    ensures Word([0, 0, 0, 24]) == 24
  {
  }

  // ---------------------------------------------------------------- the message schedule

  lemma FirstWords(block: Chunk, t: nat)
    requires block == AbcBlock() && t < 16
    ensures W(block, t) == if t == 0 then 0x61626380 else if t == 15 then 24 else 0
  {
    hide Word;
    var s := block[4 * t..4 * t + 4];
    LetterWord();
    ZeroWord();
    LengthWord();
    if t == 0 {
      assert s == [0x61, 0x62, 0x63, 0x80];
    } else if t == 15 {
      assert s == [0, 0, 0, 24];
    } else {
      assert s == [0, 0, 0, 0];
    }
  }

  lemma NextWord(block: Chunk, t: nat, w3: bv32, w8: bv32, w14: bv32, w16: bv32, w: bv32)
    requires 16 <= t < 80 && W(block, t - 3) == w3 && W(block, t - 8) == w8 && W(block, t - 14) == w14 && W(block, t - 16) == w16
    requires Mix(w3, w8, w14, w16) == w
    ensures W(block, t) == w
  {
    hide Mix, Word;
  }

  lemma Words16(block: Chunk)
    requires block == AbcBlock()
    ensures W(block, 16) == 0xc2c4c700 && W(block, 17) == 0x00000000 && W(block, 18) == 0x00000030 && W(block, 19) == 0x85898e01
    ensures W(block, 20) == 0x00000000 && W(block, 21) == 0x00000060 && W(block, 22) == 0x0b131c03 && W(block, 23) == 0x00000030
    ensures W(block, 24) == 0x85898ec1 && W(block, 25) == 0x16263806 && W(block, 26) == 0x00000000 && W(block, 27) == 0x00000180
    ensures W(block, 28) == 0x2c4c700c && W(block, 29) == 0x000000f0 && W(block, 30) == 0x93afb507 && W(block, 31) == 0x5898e048
  {
    hide W, AbcBlock;
    forall t: nat | t < 16 ensures W(block, t) == if t == 0 then 0x61626380 else if t == 15 then 24 else 0 {
      FirstWords(block, t);
    }
    NextWord(block, 16, 0x00000000, 0x00000000, 0x00000000, 0x61626380, 0xc2c4c700);
    NextWord(block, 17, 0x00000000, 0x00000000, 0x00000000, 0x00000000, 0x00000000);
    NextWord(block, 18, 0x00000018, 0x00000000, 0x00000000, 0x00000000, 0x00000030);
    NextWord(block, 19, 0xc2c4c700, 0x00000000, 0x00000000, 0x00000000, 0x85898e01);
    NextWord(block, 20, 0x00000000, 0x00000000, 0x00000000, 0x00000000, 0x00000000);
    NextWord(block, 21, 0x00000030, 0x00000000, 0x00000000, 0x00000000, 0x00000060);
    NextWord(block, 22, 0x85898e01, 0x00000000, 0x00000000, 0x00000000, 0x0b131c03);
    NextWord(block, 23, 0x00000000, 0x00000018, 0x00000000, 0x00000000, 0x00000030);
    NextWord(block, 24, 0x00000060, 0xc2c4c700, 0x00000000, 0x00000000, 0x85898ec1);
    NextWord(block, 25, 0x0b131c03, 0x00000000, 0x00000000, 0x00000000, 0x16263806);
    NextWord(block, 26, 0x00000030, 0x00000030, 0x00000000, 0x00000000, 0x00000000);
    NextWord(block, 27, 0x85898ec1, 0x85898e01, 0x00000000, 0x00000000, 0x00000180);
    NextWord(block, 28, 0x16263806, 0x00000000, 0x00000000, 0x00000000, 0x2c4c700c);
    NextWord(block, 29, 0x00000000, 0x00000060, 0x00000018, 0x00000000, 0x000000f0);
    NextWord(block, 30, 0x00000180, 0x0b131c03, 0xc2c4c700, 0x00000000, 0x93afb507);
    NextWord(block, 31, 0x2c4c700c, 0x00000030, 0x00000000, 0x00000018, 0x5898e048);
  }

  lemma Words32(block: Chunk)
    requires W(block, 16) == 0xc2c4c700 && W(block, 17) == 0x00000000 && W(block, 18) == 0x00000030 && W(block, 19) == 0x85898e01
    requires W(block, 20) == 0x00000000 && W(block, 21) == 0x00000060 && W(block, 22) == 0x0b131c03 && W(block, 23) == 0x00000030
    requires W(block, 24) == 0x85898ec1 && W(block, 25) == 0x16263806 && W(block, 26) == 0x00000000 && W(block, 27) == 0x00000180
    requires W(block, 28) == 0x2c4c700c && W(block, 29) == 0x000000f0 && W(block, 30) == 0x93afb507 && W(block, 31) == 0x5898e048
    ensures W(block, 32) == 0x8e9a9202 && W(block, 33) == 0x00000600 && W(block, 34) == 0xb131c0f0 && W(block, 35) == 0x16263bc6
    ensures W(block, 36) == 0x4ebed41e && W(block, 37) == 0x626380a1 && W(block, 38) == 0x16263806 && W(block, 39) == 0x000018c0
    ensures W(block, 40) == 0xd2e138c4 && W(block, 41) == 0x00000f00 && W(block, 42) == 0x3afb5079 && W(block, 43) == 0x898e04e5
    ensures W(block, 44) == 0xe2ba3c2b && W(block, 45) == 0x000060c0 && W(block, 46) == 0x053a37cd && W(block, 47) == 0x74458547
  {
    hide W, AbcBlock;
    NextWord(block, 32, 0x000000f0, 0x85898ec1, 0x00000030, 0xc2c4c700, 0x8e9a9202);
    NextWord(block, 33, 0x93afb507, 0x16263806, 0x85898e01, 0x00000000, 0x00000600);
    NextWord(block, 34, 0x5898e048, 0x00000000, 0x00000000, 0x00000030, 0xb131c0f0);
    NextWord(block, 35, 0x8e9a9202, 0x00000180, 0x00000060, 0x85898e01, 0x16263bc6);
    NextWord(block, 36, 0x00000600, 0x2c4c700c, 0x0b131c03, 0x00000000, 0x4ebed41e);
    NextWord(block, 37, 0xb131c0f0, 0x000000f0, 0x00000030, 0x00000060, 0x626380a1);
    NextWord(block, 38, 0x16263bc6, 0x93afb507, 0x85898ec1, 0x0b131c03, 0x16263806);
    NextWord(block, 39, 0x4ebed41e, 0x5898e048, 0x16263806, 0x00000030, 0x000018c0);
    NextWord(block, 40, 0x626380a1, 0x8e9a9202, 0x00000000, 0x85898ec1, 0xd2e138c4);
    NextWord(block, 41, 0x16263806, 0x00000600, 0x00000180, 0x16263806, 0x00000f00);
    NextWord(block, 42, 0x000018c0, 0xb131c0f0, 0x2c4c700c, 0x00000000, 0x3afb5079);
    NextWord(block, 43, 0xd2e138c4, 0x16263bc6, 0x000000f0, 0x00000180, 0x898e04e5);
    NextWord(block, 44, 0x00000f00, 0x4ebed41e, 0x93afb507, 0x2c4c700c, 0xe2ba3c2b);
    NextWord(block, 45, 0x3afb5079, 0x626380a1, 0x5898e048, 0x000000f0, 0x000060c0);
    NextWord(block, 46, 0x898e04e5, 0x16263806, 0x8e9a9202, 0x93afb507, 0x053a37cd);
    NextWord(block, 47, 0xe2ba3c2b, 0x000018c0, 0x00000600, 0x5898e048, 0x74458547);
  }

  lemma Words48(block: Chunk)
    requires W(block, 32) == 0x8e9a9202 && W(block, 33) == 0x00000600 && W(block, 34) == 0xb131c0f0 && W(block, 35) == 0x16263bc6
    requires W(block, 36) == 0x4ebed41e && W(block, 37) == 0x626380a1 && W(block, 38) == 0x16263806 && W(block, 39) == 0x000018c0
    requires W(block, 40) == 0xd2e138c4 && W(block, 41) == 0x00000f00 && W(block, 42) == 0x3afb5079 && W(block, 43) == 0x898e04e5
    requires W(block, 44) == 0xe2ba3c2b && W(block, 45) == 0x000060c0 && W(block, 46) == 0x053a37cd && W(block, 47) == 0x74458547
    ensures W(block, 48) == 0xda9415ed && W(block, 49) == 0x26380a16 && W(block, 50) == 0x626383a1 && W(block, 51) == 0x4ebf54de
    ensures W(block, 52) == 0x3835b44b && W(block, 53) == 0x0000f600 && W(block, 54) == 0x1e84c7a3 && W(block, 55) == 0x98e04d98
    ensures W(block, 56) == 0x651d16a0 && W(block, 57) == 0x62658ca1 && W(block, 58) == 0x458544d6 && W(block, 59) == 0x44584cb7
    ensures W(block, 60) == 0x7ba06619 && W(block, 61) == 0x6380aea2 && W(block, 62) == 0x0ae55269 && W(block, 63) == 0x627b49a1
  {
    hide W, AbcBlock;
    NextWord(block, 48, 0x000060c0, 0xd2e138c4, 0xb131c0f0, 0x8e9a9202, 0xda9415ed);
    NextWord(block, 49, 0x053a37cd, 0x00000f00, 0x16263bc6, 0x00000600, 0x26380a16);
    NextWord(block, 50, 0x74458547, 0x3afb5079, 0x4ebed41e, 0xb131c0f0, 0x626383a1);
    NextWord(block, 51, 0xda9415ed, 0x898e04e5, 0x626380a1, 0x16263bc6, 0x4ebf54de);
    NextWord(block, 52, 0x26380a16, 0xe2ba3c2b, 0x16263806, 0x4ebed41e, 0x3835b44b);
    NextWord(block, 53, 0x626383a1, 0x000060c0, 0x000018c0, 0x626380a1, 0x0000f600);
    NextWord(block, 54, 0x4ebf54de, 0x053a37cd, 0xd2e138c4, 0x16263806, 0x1e84c7a3);
    NextWord(block, 55, 0x3835b44b, 0x74458547, 0x00000f00, 0x000018c0, 0x98e04d98);
    NextWord(block, 56, 0x0000f600, 0xda9415ed, 0x3afb5079, 0xd2e138c4, 0x651d16a0);
    NextWord(block, 57, 0x1e84c7a3, 0x26380a16, 0x898e04e5, 0x00000f00, 0x62658ca1);
    NextWord(block, 58, 0x98e04d98, 0x626383a1, 0xe2ba3c2b, 0x3afb5079, 0x458544d6);
    NextWord(block, 59, 0x651d16a0, 0x4ebf54de, 0x000060c0, 0x898e04e5, 0x44584cb7);
    NextWord(block, 60, 0x62658ca1, 0x3835b44b, 0x053a37cd, 0xe2ba3c2b, 0x7ba06619);
    NextWord(block, 61, 0x458544d6, 0x0000f600, 0x74458547, 0x000060c0, 0x6380aea2);
    NextWord(block, 62, 0x44584cb7, 0x1e84c7a3, 0xda9415ed, 0x053a37cd, 0x0ae55269);
    NextWord(block, 63, 0x7ba06619, 0x98e04d98, 0x26380a16, 0x74458547, 0x627b49a1);
  }

  lemma Words64(block: Chunk)
    requires W(block, 48) == 0xda9415ed && W(block, 49) == 0x26380a16 && W(block, 50) == 0x626383a1 && W(block, 51) == 0x4ebf54de
    requires W(block, 52) == 0x3835b44b && W(block, 53) == 0x0000f600 && W(block, 54) == 0x1e84c7a3 && W(block, 55) == 0x98e04d98
    requires W(block, 56) == 0x651d16a0 && W(block, 57) == 0x62658ca1 && W(block, 58) == 0x458544d6 && W(block, 59) == 0x44584cb7
    requires W(block, 60) == 0x7ba06619 && W(block, 61) == 0x6380aea2 && W(block, 62) == 0x0ae55269 && W(block, 63) == 0x627b49a1
    ensures W(block, 64) == 0x7cd45c9d && W(block, 65) == 0x000f0000 && W(block, 66) == 0xfb50753a && W(block, 67) == 0xec6765e8
    ensures W(block, 68) == 0xba3c2be2 && W(block, 69) == 0x0060c000 && W(block, 70) == 0x3a37cd05 && W(block, 71) == 0x458546f4
    ensures W(block, 72) == 0xb8599dd6 && W(block, 73) == 0x380a1a26 && W(block, 74) == 0x01e02203 && W(block, 75) == 0xe7cc3456
    ensures W(block, 76) == 0xe6e60b69 && W(block, 77) == 0x00f60a00 && W(block, 78) == 0x5795ef4f && W(block, 79) == 0x822e0879
  {
    hide W, AbcBlock;
    NextWord(block, 64, 0x6380aea2, 0x651d16a0, 0x626383a1, 0xda9415ed, 0x7cd45c9d);
    NextWord(block, 65, 0x0ae55269, 0x62658ca1, 0x4ebf54de, 0x26380a16, 0x000f0000);
    NextWord(block, 66, 0x627b49a1, 0x458544d6, 0x3835b44b, 0x626383a1, 0xfb50753a);
    NextWord(block, 67, 0x7cd45c9d, 0x44584cb7, 0x0000f600, 0x4ebf54de, 0xec6765e8);
    NextWord(block, 68, 0x000f0000, 0x7ba06619, 0x1e84c7a3, 0x3835b44b, 0xba3c2be2);
    NextWord(block, 69, 0xfb50753a, 0x6380aea2, 0x98e04d98, 0x0000f600, 0x0060c000);
    NextWord(block, 70, 0xec6765e8, 0x0ae55269, 0x651d16a0, 0x1e84c7a3, 0x3a37cd05);
    NextWord(block, 71, 0xba3c2be2, 0x627b49a1, 0x62658ca1, 0x98e04d98, 0x458546f4);
    NextWord(block, 72, 0x0060c000, 0x7cd45c9d, 0x458544d6, 0x651d16a0, 0xb8599dd6);
    NextWord(block, 73, 0x3a37cd05, 0x000f0000, 0x44584cb7, 0x62658ca1, 0x380a1a26);
    NextWord(block, 74, 0x458546f4, 0xfb50753a, 0x7ba06619, 0x458544d6, 0x01e02203);
    NextWord(block, 75, 0xb8599dd6, 0xec6765e8, 0x6380aea2, 0x44584cb7, 0xe7cc3456);
    NextWord(block, 76, 0x380a1a26, 0xba3c2be2, 0x0ae55269, 0x7ba06619, 0xe6e60b69);
    NextWord(block, 77, 0x01e02203, 0x0060c000, 0x627b49a1, 0x6380aea2, 0x00f60a00);
    NextWord(block, 78, 0xe7cc3456, 0x3a37cd05, 0x7cd45c9d, 0x0ae55269, 0x5795ef4f);
    NextWord(block, 79, 0xe6e60b69, 0x458546f4, 0x000f0000, 0x627b49a1, 0x822e0879);
  }

  // ---------------------------------------------------------------- the rounds

  lemma NextRound(block: Chunk, t: nat, s: State, w: bv32, r: State)
    requires Rounds(INITIAL, block, t) == s && W(block, t) == w && Round(s, t, w) == r
    ensures Rounds(INITIAL, block, t + 1) == r
  {
    hide Round, W;
  }

  lemma Rounds0(block: Chunk)
    requires Rounds(INITIAL, block, 0) == State(0x67452301, 0xefcdab89, 0x98badcfe, 0x10325476, 0xc3d2e1f0)
    requires W(block, 0) == 0x61626380 && W(block, 1) == 0x00000000 && W(block, 2) == 0x00000000 && W(block, 3) == 0x00000000
    requires W(block, 4) == 0x00000000 && W(block, 5) == 0x00000000 && W(block, 6) == 0x00000000 && W(block, 7) == 0x00000000
    requires W(block, 8) == 0x00000000 && W(block, 9) == 0x00000000 && W(block, 10) == 0x00000000 && W(block, 11) == 0x00000000
    requires W(block, 12) == 0x00000000 && W(block, 13) == 0x00000000 && W(block, 14) == 0x00000000 && W(block, 15) == 0x00000018
    ensures Rounds(INITIAL, block, 16) == State(0x20bdd62f, 0x196bee77, 0x644a3da5, 0x1181ed99, 0x18c623f9)
  {
    hide W, Rounds;
    NextRound(block, 0, State(0x67452301, 0xefcdab89, 0x98badcfe, 0x10325476, 0xc3d2e1f0), 0x61626380, State(0x0116fc33, 0x67452301, 0x7bf36ae2, 0x98badcfe, 0x10325476));
    NextRound(block, 1, State(0x0116fc33, 0x67452301, 0x7bf36ae2, 0x98badcfe, 0x10325476), 0x00000000, State(0x8990536d, 0x0116fc33, 0x59d148c0, 0x7bf36ae2, 0x98badcfe));
    NextRound(block, 2, State(0x8990536d, 0x0116fc33, 0x59d148c0, 0x7bf36ae2, 0x98badcfe), 0x00000000, State(0xa1390f08, 0x8990536d, 0xc045bf0c, 0x59d148c0, 0x7bf36ae2));
    NextRound(block, 3, State(0xa1390f08, 0x8990536d, 0xc045bf0c, 0x59d148c0, 0x7bf36ae2), 0x00000000, State(0xcdd8e11b, 0xa1390f08, 0x626414db, 0xc045bf0c, 0x59d148c0));
    NextRound(block, 4, State(0xcdd8e11b, 0xa1390f08, 0x626414db, 0xc045bf0c, 0x59d148c0), 0x00000000, State(0xcfd499de, 0xcdd8e11b, 0x284e43c2, 0x626414db, 0xc045bf0c));
    NextRound(block, 5, State(0xcfd499de, 0xcdd8e11b, 0x284e43c2, 0x626414db, 0xc045bf0c), 0x00000000, State(0x3fc7ca40, 0xcfd499de, 0xf3763846, 0x284e43c2, 0x626414db));
    NextRound(block, 6, State(0x3fc7ca40, 0xcfd499de, 0xf3763846, 0x284e43c2, 0x626414db), 0x00000000, State(0x993e30c1, 0x3fc7ca40, 0xb3f52677, 0xf3763846, 0x284e43c2));
    NextRound(block, 7, State(0x993e30c1, 0x3fc7ca40, 0xb3f52677, 0xf3763846, 0x284e43c2), 0x00000000, State(0x9e8c07d4, 0x993e30c1, 0x0ff1f290, 0xb3f52677, 0xf3763846));
    NextRound(block, 8, State(0x9e8c07d4, 0x993e30c1, 0x0ff1f290, 0xb3f52677, 0xf3763846), 0x00000000, State(0x4b6ae328, 0x9e8c07d4, 0x664f8c30, 0x0ff1f290, 0xb3f52677));
    NextRound(block, 9, State(0x4b6ae328, 0x9e8c07d4, 0x664f8c30, 0x0ff1f290, 0xb3f52677), 0x00000000, State(0x8351f929, 0x4b6ae328, 0x27a301f5, 0x664f8c30, 0x0ff1f290));
    NextRound(block, 10, State(0x8351f929, 0x4b6ae328, 0x27a301f5, 0x664f8c30, 0x0ff1f290), 0x00000000, State(0xfbda9e89, 0x8351f929, 0x12dab8ca, 0x27a301f5, 0x664f8c30));
    NextRound(block, 11, State(0xfbda9e89, 0x8351f929, 0x12dab8ca, 0x27a301f5, 0x664f8c30), 0x00000000, State(0x63188fe4, 0xfbda9e89, 0x60d47e4a, 0x12dab8ca, 0x27a301f5));
    NextRound(block, 12, State(0x63188fe4, 0xfbda9e89, 0x60d47e4a, 0x12dab8ca, 0x27a301f5), 0x00000000, State(0x4607b664, 0x63188fe4, 0x7ef6a7a2, 0x60d47e4a, 0x12dab8ca));
    NextRound(block, 13, State(0x4607b664, 0x63188fe4, 0x7ef6a7a2, 0x60d47e4a, 0x12dab8ca), 0x00000000, State(0x9128f695, 0x4607b664, 0x18c623f9, 0x7ef6a7a2, 0x60d47e4a));
    NextRound(block, 14, State(0x9128f695, 0x4607b664, 0x18c623f9, 0x7ef6a7a2, 0x60d47e4a), 0x00000000, State(0x196bee77, 0x9128f695, 0x1181ed99, 0x18c623f9, 0x7ef6a7a2));
    NextRound(block, 15, State(0x196bee77, 0x9128f695, 0x1181ed99, 0x18c623f9, 0x7ef6a7a2), 0x00000018, State(0x20bdd62f, 0x196bee77, 0x644a3da5, 0x1181ed99, 0x18c623f9));
  }

  lemma Rounds16(block: Chunk)
    requires Rounds(INITIAL, block, 16) == State(0x20bdd62f, 0x196bee77, 0x644a3da5, 0x1181ed99, 0x18c623f9)
    requires W(block, 16) == 0xc2c4c700 && W(block, 17) == 0x00000000 && W(block, 18) == 0x00000030 && W(block, 19) == 0x85898e01
    requires W(block, 20) == 0x00000000 && W(block, 21) == 0x00000060 && W(block, 22) == 0x0b131c03 && W(block, 23) == 0x00000030
    requires W(block, 24) == 0x85898ec1 && W(block, 25) == 0x16263806 && W(block, 26) == 0x00000000 && W(block, 27) == 0x00000180
    requires W(block, 28) == 0x2c4c700c && W(block, 29) == 0x000000f0 && W(block, 30) == 0x93afb507 && W(block, 31) == 0x5898e048
    ensures Rounds(INITIAL, block, 32) == State(0x3b845d33, 0x1267b407, 0x717eebd7, 0xa0dc2d4b, 0xd2aa1365)
  {
    hide W, Rounds;
    NextRound(block, 16, State(0x20bdd62f, 0x196bee77, 0x644a3da5, 0x1181ed99, 0x18c623f9), 0xc2c4c700, State(0x4e925823, 0x20bdd62f, 0xc65afb9d, 0x644a3da5, 0x1181ed99));
    NextRound(block, 17, State(0x4e925823, 0x20bdd62f, 0xc65afb9d, 0x644a3da5, 0x1181ed99), 0x00000000, State(0x82aa6728, 0x4e925823, 0xc82f758b, 0xc65afb9d, 0x644a3da5));
    NextRound(block, 18, State(0x82aa6728, 0x4e925823, 0xc82f758b, 0xc65afb9d, 0x644a3da5), 0x00000030, State(0xdc64901d, 0x82aa6728, 0xd3a49608, 0xc82f758b, 0xc65afb9d));
    NextRound(block, 19, State(0xdc64901d, 0x82aa6728, 0xd3a49608, 0xc82f758b, 0xc65afb9d), 0x85898e01, State(0xfd9e1d7d, 0xdc64901d, 0x20aa99ca, 0xd3a49608, 0xc82f758b));
    NextRound(block, 20, State(0xfd9e1d7d, 0xdc64901d, 0x20aa99ca, 0xd3a49608, 0xc82f758b), 0x00000000, State(0x1a37b0ca, 0xfd9e1d7d, 0x77192407, 0x20aa99ca, 0xd3a49608));
    NextRound(block, 21, State(0x1a37b0ca, 0xfd9e1d7d, 0x77192407, 0x20aa99ca, 0xd3a49608), 0x00000060, State(0x33a23bfc, 0x1a37b0ca, 0x7f67875f, 0x77192407, 0x20aa99ca));
    NextRound(block, 22, State(0x33a23bfc, 0x1a37b0ca, 0x7f67875f, 0x77192407, 0x20aa99ca), 0x0b131c03, State(0x21283486, 0x33a23bfc, 0x868dec32, 0x7f67875f, 0x77192407));
    NextRound(block, 23, State(0x21283486, 0x33a23bfc, 0x868dec32, 0x7f67875f, 0x77192407), 0x00000030, State(0xd541f12d, 0x21283486, 0x0ce88eff, 0x868dec32, 0x7f67875f));
    NextRound(block, 24, State(0xd541f12d, 0x21283486, 0x0ce88eff, 0x868dec32, 0x7f67875f), 0x85898ec1, State(0xc7567dc6, 0xd541f12d, 0x884a0d21, 0x0ce88eff, 0x868dec32));
    NextRound(block, 25, State(0xc7567dc6, 0xd541f12d, 0x884a0d21, 0x0ce88eff, 0x868dec32), 0x16263806, State(0x48413ba4, 0xc7567dc6, 0x75507c4b, 0x884a0d21, 0x0ce88eff));
    NextRound(block, 26, State(0x48413ba4, 0xc7567dc6, 0x75507c4b, 0x884a0d21, 0x0ce88eff), 0x00000000, State(0xbe35fbd5, 0x48413ba4, 0xb1d59f71, 0x75507c4b, 0x884a0d21));
    NextRound(block, 27, State(0xbe35fbd5, 0x48413ba4, 0xb1d59f71, 0x75507c4b, 0x884a0d21), 0x00000180, State(0x4aa84d97, 0xbe35fbd5, 0x12104ee9, 0xb1d59f71, 0x75507c4b));
    NextRound(block, 28, State(0x4aa84d97, 0xbe35fbd5, 0x12104ee9, 0xb1d59f71, 0x75507c4b), 0x2c4c700c, State(0x8370b52e, 0x4aa84d97, 0x6f8d7ef5, 0x12104ee9, 0xb1d59f71));
    NextRound(block, 29, State(0x8370b52e, 0x4aa84d97, 0x6f8d7ef5, 0x12104ee9, 0xb1d59f71), 0x000000f0, State(0xc5fbaf5d, 0x8370b52e, 0xd2aa1365, 0x6f8d7ef5, 0x12104ee9));
    NextRound(block, 30, State(0xc5fbaf5d, 0x8370b52e, 0xd2aa1365, 0x6f8d7ef5, 0x12104ee9), 0x93afb507, State(0x1267b407, 0xc5fbaf5d, 0xa0dc2d4b, 0xd2aa1365, 0x6f8d7ef5));
    NextRound(block, 31, State(0x1267b407, 0xc5fbaf5d, 0xa0dc2d4b, 0xd2aa1365, 0x6f8d7ef5), 0x5898e048, State(0x3b845d33, 0x1267b407, 0x717eebd7, 0xa0dc2d4b, 0xd2aa1365));
  }

  lemma Rounds32(block: Chunk)
    requires Rounds(INITIAL, block, 32) == State(0x3b845d33, 0x1267b407, 0x717eebd7, 0xa0dc2d4b, 0xd2aa1365)
    requires W(block, 32) == 0x8e9a9202 && W(block, 33) == 0x00000600 && W(block, 34) == 0xb131c0f0 && W(block, 35) == 0x16263bc6
    requires W(block, 36) == 0x4ebed41e && W(block, 37) == 0x626380a1 && W(block, 38) == 0x16263806 && W(block, 39) == 0x000018c0
    requires W(block, 40) == 0xd2e138c4 && W(block, 41) == 0x00000f00 && W(block, 42) == 0x3afb5079 && W(block, 43) == 0x898e04e5
    requires W(block, 44) == 0xe2ba3c2b && W(block, 45) == 0x000060c0 && W(block, 46) == 0x053a37cd && W(block, 47) == 0x74458547
    ensures Rounds(INITIAL, block, 48) == State(0xbead02ca, 0xa01b846c, 0x8714787c, 0x503ca382, 0xfb86c6ab)
  {
    hide W, Rounds;
    NextRound(block, 32, State(0x3b845d33, 0x1267b407, 0x717eebd7, 0xa0dc2d4b, 0xd2aa1365), 0x8e9a9202, State(0x046faa0a, 0x3b845d33, 0xc499ed01, 0x717eebd7, 0xa0dc2d4b));
    NextRound(block, 33, State(0x046faa0a, 0x3b845d33, 0xc499ed01, 0x717eebd7, 0xa0dc2d4b), 0x00000600, State(0x2c0ebc11, 0x046faa0a, 0xcee1174c, 0xc499ed01, 0x717eebd7));
    NextRound(block, 34, State(0x2c0ebc11, 0x046faa0a, 0xcee1174c, 0xc499ed01, 0x717eebd7), 0xb131c0f0, State(0x21796ad4, 0x2c0ebc11, 0x811bea82, 0xcee1174c, 0xc499ed01));
    NextRound(block, 35, State(0x21796ad4, 0x2c0ebc11, 0x811bea82, 0xcee1174c, 0xc499ed01), 0x16263bc6, State(0xdcbbb0cb, 0x21796ad4, 0x4b03af04, 0x811bea82, 0xcee1174c));
    NextRound(block, 36, State(0xdcbbb0cb, 0x21796ad4, 0x4b03af04, 0x811bea82, 0xcee1174c), 0x4ebed41e, State(0x0f511fd8, 0xdcbbb0cb, 0x085e5ab5, 0x4b03af04, 0x811bea82));
    NextRound(block, 37, State(0x0f511fd8, 0xdcbbb0cb, 0x085e5ab5, 0x4b03af04, 0x811bea82), 0x626380a1, State(0xdc63973f, 0x0f511fd8, 0xf72eec32, 0x085e5ab5, 0x4b03af04));
    NextRound(block, 38, State(0xdc63973f, 0x0f511fd8, 0xf72eec32, 0x085e5ab5, 0x4b03af04), 0x16263806, State(0x4c986405, 0xdc63973f, 0x03d447f6, 0xf72eec32, 0x085e5ab5));
    NextRound(block, 39, State(0x4c986405, 0xdc63973f, 0x03d447f6, 0xf72eec32, 0x085e5ab5), 0x000018c0, State(0x32de1cba, 0x4c986405, 0xf718e5cf, 0x03d447f6, 0xf72eec32));
    NextRound(block, 40, State(0x32de1cba, 0x4c986405, 0xf718e5cf, 0x03d447f6, 0xf72eec32), 0xd2e138c4, State(0xfc87dedf, 0x32de1cba, 0x53261901, 0xf718e5cf, 0x03d447f6));
    NextRound(block, 41, State(0xfc87dedf, 0x32de1cba, 0x53261901, 0xf718e5cf, 0x03d447f6), 0x00000f00, State(0x970a0d5c, 0xfc87dedf, 0x8cb7872e, 0x53261901, 0xf718e5cf));
    NextRound(block, 42, State(0x970a0d5c, 0xfc87dedf, 0x8cb7872e, 0x53261901, 0xf718e5cf), 0x3afb5079, State(0x7f193dc5, 0x970a0d5c, 0xff21f7b7, 0x8cb7872e, 0x53261901));
    NextRound(block, 43, State(0x7f193dc5, 0x970a0d5c, 0xff21f7b7, 0x8cb7872e, 0x53261901), 0x898e04e5, State(0xee1b1aaf, 0x7f193dc5, 0x25c28357, 0xff21f7b7, 0x8cb7872e));
    NextRound(block, 44, State(0xee1b1aaf, 0x7f193dc5, 0x25c28357, 0xff21f7b7, 0x8cb7872e), 0xe2ba3c2b, State(0x40f28e09, 0xee1b1aaf, 0x5fc64f71, 0x25c28357, 0xff21f7b7));
    NextRound(block, 45, State(0x40f28e09, 0xee1b1aaf, 0x5fc64f71, 0x25c28357, 0xff21f7b7), 0x000060c0, State(0x1c51e1f2, 0x40f28e09, 0xfb86c6ab, 0x5fc64f71, 0x25c28357));
    NextRound(block, 46, State(0x1c51e1f2, 0x40f28e09, 0xfb86c6ab, 0x5fc64f71, 0x25c28357), 0x053a37cd, State(0xa01b846c, 0x1c51e1f2, 0x503ca382, 0xfb86c6ab, 0x5fc64f71));
    NextRound(block, 47, State(0xa01b846c, 0x1c51e1f2, 0x503ca382, 0xfb86c6ab, 0x5fc64f71), 0x74458547, State(0xbead02ca, 0xa01b846c, 0x8714787c, 0x503ca382, 0xfb86c6ab));
  }

  lemma Rounds48(block: Chunk)
    requires Rounds(INITIAL, block, 48) == State(0xbead02ca, 0xa01b846c, 0x8714787c, 0x503ca382, 0xfb86c6ab)
    requires W(block, 48) == 0xda9415ed && W(block, 49) == 0x26380a16 && W(block, 50) == 0x626383a1 && W(block, 51) == 0x4ebf54de
    requires W(block, 52) == 0x3835b44b && W(block, 53) == 0x0000f600 && W(block, 54) == 0x1e84c7a3 && W(block, 55) == 0x98e04d98
    requires W(block, 56) == 0x651d16a0 && W(block, 57) == 0x62658ca1 && W(block, 58) == 0x458544d6 && W(block, 59) == 0x44584cb7
    requires W(block, 60) == 0x7ba06619 && W(block, 61) == 0x6380aea2 && W(block, 62) == 0x0ae55269 && W(block, 63) == 0x627b49a1
    ensures Rounds(INITIAL, block, 64) == State(0x6b61c9e1, 0xb66c020b, 0x9523272c, 0xf5d5b051, 0x8fd4b796)
  {
    hide W, Rounds;
    NextRound(block, 48, State(0xbead02ca, 0xa01b846c, 0x8714787c, 0x503ca382, 0xfb86c6ab), 0xda9415ed, State(0xbaf39337, 0xbead02ca, 0x2806e11b, 0x8714787c, 0x503ca382));
    NextRound(block, 49, State(0xbaf39337, 0xbead02ca, 0x2806e11b, 0x8714787c, 0x503ca382), 0x26380a16, State(0x120731c5, 0xbaf39337, 0xafab40b2, 0x2806e11b, 0x8714787c));
    NextRound(block, 50, State(0x120731c5, 0xbaf39337, 0xafab40b2, 0x2806e11b, 0x8714787c), 0x626383a1, State(0x641db2ce, 0x120731c5, 0xeebce4cd, 0xafab40b2, 0x2806e11b));
    NextRound(block, 51, State(0x641db2ce, 0x120731c5, 0xeebce4cd, 0xafab40b2, 0x2806e11b), 0x4ebf54de, State(0x3847ad66, 0x641db2ce, 0x4481cc71, 0xeebce4cd, 0xafab40b2));
    NextRound(block, 52, State(0x3847ad66, 0x641db2ce, 0x4481cc71, 0xeebce4cd, 0xafab40b2), 0x3835b44b, State(0xe490436d, 0x3847ad66, 0x99076cb3, 0x4481cc71, 0xeebce4cd));
    NextRound(block, 53, State(0xe490436d, 0x3847ad66, 0x99076cb3, 0x4481cc71, 0xeebce4cd), 0x0000f600, State(0x27e9f1d8, 0xe490436d, 0x8e11eb59, 0x99076cb3, 0x4481cc71));
    NextRound(block, 54, State(0x27e9f1d8, 0xe490436d, 0x8e11eb59, 0x99076cb3, 0x4481cc71), 0x1e84c7a3, State(0x7b71f76d, 0x27e9f1d8, 0x792410db, 0x8e11eb59, 0x99076cb3));
    NextRound(block, 55, State(0x7b71f76d, 0x27e9f1d8, 0x792410db, 0x8e11eb59, 0x99076cb3), 0x98e04d98, State(0x5e6456af, 0x7b71f76d, 0x09fa7c76, 0x792410db, 0x8e11eb59));
    NextRound(block, 56, State(0x5e6456af, 0x7b71f76d, 0x09fa7c76, 0x792410db, 0x8e11eb59), 0x651d16a0, State(0xc846093f, 0x5e6456af, 0x5edc7ddb, 0x09fa7c76, 0x792410db));
    NextRound(block, 57, State(0xc846093f, 0x5e6456af, 0x5edc7ddb, 0x09fa7c76, 0x792410db), 0x62658ca1, State(0xd262ff50, 0xc846093f, 0xd79915ab, 0x5edc7ddb, 0x09fa7c76));
    NextRound(block, 58, State(0xd262ff50, 0xc846093f, 0xd79915ab, 0x5edc7ddb, 0x09fa7c76), 0x458544d6, State(0x09d785fd, 0xd262ff50, 0xf211824f, 0xd79915ab, 0x5edc7ddb));
    NextRound(block, 59, State(0x09d785fd, 0xd262ff50, 0xf211824f, 0xd79915ab, 0x5edc7ddb), 0x44584cb7, State(0x3f52de5a, 0x09d785fd, 0x3498bfd4, 0xf211824f, 0xd79915ab));
    NextRound(block, 60, State(0x3f52de5a, 0x09d785fd, 0x3498bfd4, 0xf211824f, 0xd79915ab), 0x7ba06619, State(0xd756c147, 0x3f52de5a, 0x4275e17f, 0x3498bfd4, 0xf211824f));
    NextRound(block, 61, State(0xd756c147, 0x3f52de5a, 0x4275e17f, 0x3498bfd4, 0xf211824f), 0x6380aea2, State(0x548c9cb2, 0xd756c147, 0x8fd4b796, 0x4275e17f, 0x3498bfd4));
    NextRound(block, 62, State(0x548c9cb2, 0xd756c147, 0x8fd4b796, 0x4275e17f, 0x3498bfd4), 0x0ae55269, State(0xb66c020b, 0x548c9cb2, 0xf5d5b051, 0x8fd4b796, 0x4275e17f));
    NextRound(block, 63, State(0xb66c020b, 0x548c9cb2, 0xf5d5b051, 0x8fd4b796, 0x4275e17f), 0x627b49a1, State(0x6b61c9e1, 0xb66c020b, 0x9523272c, 0xf5d5b051, 0x8fd4b796));
  }

  lemma Rounds64(block: Chunk)
    requires Rounds(INITIAL, block, 64) == State(0x6b61c9e1, 0xb66c020b, 0x9523272c, 0xf5d5b051, 0x8fd4b796)
    requires W(block, 64) == 0x7cd45c9d && W(block, 65) == 0x000f0000 && W(block, 66) == 0xfb50753a && W(block, 67) == 0xec6765e8
    requires W(block, 68) == 0xba3c2be2 && W(block, 69) == 0x0060c000 && W(block, 70) == 0x3a37cd05 && W(block, 71) == 0x458546f4
    requires W(block, 72) == 0xb8599dd6 && W(block, 73) == 0x380a1a26 && W(block, 74) == 0x01e02203 && W(block, 75) == 0xe7cc3456
    requires W(block, 76) == 0xe6e60b69 && W(block, 77) == 0x00f60a00 && W(block, 78) == 0x5795ef4f && W(block, 79) == 0x822e0879
    ensures Rounds(INITIAL, block, 80) == State(0x42541b35, 0x5738d5e1, 0x21834873, 0x681e6df6, 0xd8fdf6ad)
  {
    hide W, Rounds;
    NextRound(block, 64, State(0x6b61c9e1, 0xb66c020b, 0x9523272c, 0xf5d5b051, 0x8fd4b796), 0x7cd45c9d, State(0x19dfa7ac, 0x6b61c9e1, 0xed9b0082, 0x9523272c, 0xf5d5b051));
    NextRound(block, 65, State(0x19dfa7ac, 0x6b61c9e1, 0xed9b0082, 0x9523272c, 0xf5d5b051), 0x000f0000, State(0x101655f9, 0x19dfa7ac, 0x5ad87278, 0xed9b0082, 0x9523272c));
    NextRound(block, 66, State(0x101655f9, 0x19dfa7ac, 0x5ad87278, 0xed9b0082, 0x9523272c), 0xfb50753a, State(0x0c3df2b4, 0x101655f9, 0x0677e9eb, 0x5ad87278, 0xed9b0082));
    NextRound(block, 67, State(0x0c3df2b4, 0x101655f9, 0x0677e9eb, 0x5ad87278, 0xed9b0082), 0xec6765e8, State(0x78dd4d2b, 0x0c3df2b4, 0x4405957e, 0x0677e9eb, 0x5ad87278));
    NextRound(block, 68, State(0x78dd4d2b, 0x0c3df2b4, 0x4405957e, 0x0677e9eb, 0x5ad87278), 0xba3c2be2, State(0x497093c0, 0x78dd4d2b, 0x030f7cad, 0x4405957e, 0x0677e9eb));
    NextRound(block, 69, State(0x497093c0, 0x78dd4d2b, 0x030f7cad, 0x4405957e, 0x0677e9eb), 0x0060c000, State(0x3f2588c2, 0x497093c0, 0xde37534a, 0x030f7cad, 0x4405957e));
    NextRound(block, 70, State(0x3f2588c2, 0x497093c0, 0xde37534a, 0x030f7cad, 0x4405957e), 0x3a37cd05, State(0xc199f8c7, 0x3f2588c2, 0x125c24f0, 0xde37534a, 0x030f7cad));
    NextRound(block, 71, State(0xc199f8c7, 0x3f2588c2, 0x125c24f0, 0xde37534a, 0x030f7cad), 0x458546f4, State(0x39859de7, 0xc199f8c7, 0x8fc96230, 0x125c24f0, 0xde37534a));
    NextRound(block, 72, State(0x39859de7, 0xc199f8c7, 0x8fc96230, 0x125c24f0, 0xde37534a), 0xb8599dd6, State(0xedb42de4, 0x39859de7, 0xf0667e31, 0x8fc96230, 0x125c24f0));
    NextRound(block, 73, State(0xedb42de4, 0x39859de7, 0xf0667e31, 0x8fc96230, 0x125c24f0), 0x380a1a26, State(0x11793f6f, 0xedb42de4, 0xce616779, 0xf0667e31, 0x8fc96230));
    NextRound(block, 74, State(0x11793f6f, 0xedb42de4, 0xce616779, 0xf0667e31, 0x8fc96230), 0x01e02203, State(0x5ee76897, 0x11793f6f, 0x3b6d0b79, 0xce616779, 0xf0667e31));
    NextRound(block, 75, State(0x5ee76897, 0x11793f6f, 0x3b6d0b79, 0xce616779, 0xf0667e31), 0xe7cc3456, State(0x63f7dab7, 0x5ee76897, 0xc45e4fdb, 0x3b6d0b79, 0xce616779));
    NextRound(block, 76, State(0x63f7dab7, 0x5ee76897, 0xc45e4fdb, 0x3b6d0b79, 0xce616779), 0xe6e60b69, State(0xa079b7d9, 0x63f7dab7, 0xd7b9da25, 0xc45e4fdb, 0x3b6d0b79));
    NextRound(block, 77, State(0xa079b7d9, 0x63f7dab7, 0xd7b9da25, 0xc45e4fdb, 0x3b6d0b79), 0x00f60a00, State(0x860d21cc, 0xa079b7d9, 0xd8fdf6ad, 0xd7b9da25, 0xc45e4fdb));
    NextRound(block, 78, State(0x860d21cc, 0xa079b7d9, 0xd8fdf6ad, 0xd7b9da25, 0xc45e4fdb), 0x5795ef4f, State(0x5738d5e1, 0x860d21cc, 0x681e6df6, 0xd8fdf6ad, 0xd7b9da25));
    NextRound(block, 79, State(0x5738d5e1, 0x860d21cc, 0x681e6df6, 0xd8fdf6ad, 0xd7b9da25), 0x822e0879, State(0x42541b35, 0x5738d5e1, 0x21834873, 0x681e6df6, 0xd8fdf6ad));
  }

  lemma NoRounds(block: Chunk)
    ensures Rounds(INITIAL, block, 0) == State(0x67452301, 0xefcdab89, 0x98badcfe, 0x10325476, 0xc3d2e1f0)
  {
  }

  lemma AllRounds(block: Chunk)
    requires block == AbcBlock()
    ensures Rounds(INITIAL, block, 80) == State(0x42541b35, 0x5738d5e1, 0x21834873, 0x681e6df6, 0xd8fdf6ad)
  {
    hide W, Rounds, AbcBlock;
    forall t: nat | t < 16 ensures W(block, t) == if t == 0 then 0x61626380 else if t == 15 then 24 else 0 {
      FirstWords(block, t);
    }
    Words16(block);
    Words32(block);
    Words48(block);
    Words64(block);
    NoRounds(block);
    Rounds0(block);
    Rounds16(block);
    Rounds32(block);
    Rounds48(block);
    Rounds64(block);
  }

  lemma BytesA()
    ensures WordBytes(0xa9993e36) == [0xa9, 0x99, 0x3e, 0x36]
  {
  }

  lemma BytesB()
    ensures WordBytes(0x4706816a) == [0x47, 0x06, 0x81, 0x6a]
  {
  }

  lemma BytesC()
    ensures WordBytes(0xba3e2571) == [0xba, 0x3e, 0x25, 0x71]
  {
  }

  lemma BytesD()
    ensures WordBytes(0x7850c26c) == [0x78, 0x50, 0xc2, 0x6c]
  {
  }

  lemma BytesE()
    ensures WordBytes(0x9cd0d89d) == [0x9c, 0xd0, 0xd8, 0x9d]
  {
  }

  lemma Compressed(block: Chunk)
    requires block == AbcBlock()
    ensures Compress(INITIAL, block) == State(0xa9993e36, 0x4706816a, 0xba3e2571, 0x7850c26c, 0x9cd0d89d)
  {
    hide Rounds, AbcBlock;
    AllRounds(block);
  }

  /** The digest that the standard gives for "abc". */
  lemma AbcHash()
    ensures Hash(ABC) == [
      0xa9, 0x99, 0x3e, 0x36, 0x47, 0x06, 0x81, 0x6a, 0xba, 0x3e,
      0x25, 0x71, 0x78, 0x50, 0xc2, 0x6c, 0x9c, 0xd0, 0xd8, 0x9d]
  {
    hide Compress, WordBytes, Padding, AbcBlock;
    PaddedAbc();
    var block := AbcBlock();
    OneBlockFolded(block);
    Compressed(block);
    BytesA();
    BytesB();
    BytesC();
    BytesD();
    BytesE();
  }

  lemma OneBlockFolded(block: Chunk)
    ensures Fold(INITIAL, block) == Compress(INITIAL, block)
  {
    hide Compress;
    assert block[..0] == [] && block[0..] == block;
  }
}
