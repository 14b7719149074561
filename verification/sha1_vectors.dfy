/** The example digests of FIPS 180 for SHA-1, from the words of the standard, four steps at a time. */
module Sha1Vectors {
  import opened BitLaws
  import opened Bytes
  import opened Blocks
  import opened Sha1

  // ---------- The constants ----------

  /** K is made of the square roots of 2, 3, 5 and 10. */
  lemma {:induction false} ConstantsAreRoots(t: nat)
    requires t < 80
    ensures
      var k, n := K(t) as nat, if t < 20 then 2 else if t < 40 then 3 else if t < 60 then 5 else 10;
      k * k <= n * 0x1000_0000_0000_0000 < (k + 1) * (k + 1)
  {
  }

  /** The initial state: all hexadecimal digits upwards and then downwards in pairs, and a fifth word. */
  lemma {:induction false} InitialBytes()
    ensures DigestBytes(INIT) ==
      [0x67, 0x45, 0x23, 0x01, 0xef, 0xcd, 0xab, 0x89, 0x98, 0xba, 0xdc, 0xfe, 0x10, 0x32, 0x54, 0x76,
       0xc3, 0xd2, 0xe1, 0xf0]
  {
  }

  // ---------- Steps on given words ----------

  // A step makes a new first register; the other four are earlier ones, three of them rotated.

  function Rotl1(x: bv32): bv32 { (x << 1) | (x >> 31) }

  function Rotl5(x: bv32): bv32 { (x << 5) | (x >> 27) }

  function Rotl30(x: bv32): bv32 { (x << 30) | (x >> 2) }

  lemma {:induction false} Rotations(x: bv32)
    ensures Rotl(x, 1) == Rotl1(x) && Rotl(x, 5) == Rotl5(x) && Rotl(x, 30) == Rotl30(x)
  {
  }

  /** The first register after step `t`, the last five being `x0` to `x4`. */
  function Value(t: nat, x0: bv32, x1: bv32, x2: bv32, x3: bv32, x4: bv32, w: bv32): bv32 {
    SumT(Rotl5(x4), Func(t, x3, Rotl30(x2), Rotl30(x1)), Rotl30(x0), K(t), w)
  }

  /** A word of the schedule from those sixteen, fourteen, eight and three places before it. */
  function Mixed(a: bv32, b: bv32, c: bv32, d: bv32): bv32 {
    Rotl1(Xor4(d, c, b, a))
  }

  /** The registers after `t` steps, the last one made being `x4`. */
  ghost predicate At(h: State, block: Block, t: nat, x0: bv32, x1: bv32, x2: bv32, x3: bv32, x4: bv32) {
    Rounds(h, block, t) == State(x4, x3, Rotl30(x2), Rotl30(x1), Rotl30(x0))
  }

  ghost predicate WordIs(block: Block, t: nat, w: bv32) {
    W(block, t) == w
  }

  lemma {:induction false} One(h: State, block: Block, t: nat, x0: bv32, x1: bv32, x2: bv32, x3: bv32, x4: bv32,
                               w: bv32, x5: bv32)
    requires At(h, block, t, x0, x1, x2, x3, x4) && WordIs(block, t, w) && Value(t, x0, x1, x2, x3, x4, w) == x5
    ensures At(h, block, t + 1, x1, x2, x3, x4, x5)
  {
    hide W, Func, K, Rotl, Rotl5, Rotl30, SumT;
    Rotations(x4);
    Rotations(x3);
  }

  lemma {:induction false} OneWord(block: Block, t: nat, a: bv32, b: bv32, c: bv32, d: bv32, w: bv32)
    requires 16 <= t && WordIs(block, t - 16, a) && WordIs(block, t - 14, b) && WordIs(block, t - 8, c)
    requires WordIs(block, t - 3, d) && Mixed(a, b, c, d) == w
    ensures WordIs(block, t, w)
  {
    hide Rotl, Rotl1, Xor4;
    Rotations(Xor4(d, c, b, a));
  }

  /** Four steps with the words `w0` to `w3` make the registers `x5` to `x8`. */
  lemma {:induction false} Four(h: State, block: Block, t: nat, x0: bv32, x1: bv32, x2: bv32, x3: bv32, x4: bv32,
                                x5: bv32, x6: bv32, x7: bv32, x8: bv32, w0: bv32, w1: bv32, w2: bv32, w3: bv32)
    requires At(h, block, t, x0, x1, x2, x3, x4)
    requires WordIs(block, t, w0) && WordIs(block, t + 1, w1) && WordIs(block, t + 2, w2) && WordIs(block, t + 3, w3)
    requires Value(t, x0, x1, x2, x3, x4, w0) == x5 && Value(t + 1, x1, x2, x3, x4, x5, w1) == x6
    requires Value(t + 2, x2, x3, x4, x5, x6, w2) == x7 && Value(t + 3, x3, x4, x5, x6, x7, w3) == x8
    ensures At(h, block, t + 4, x4, x5, x6, x7, x8)
  {
    hide At, WordIs, Value;
    One(h, block, t, x0, x1, x2, x3, x4, w0, x5);
    One(h, block, t + 1, x1, x2, x3, x4, x5, w1, x6);
    One(h, block, t + 2, x2, x3, x4, x5, x6, w2, x7);
    One(h, block, t + 3, x3, x4, x5, x6, x7, w3, x8);
  }

  /** The words 16 to 19 places behind `t`. */
  lemma {:induction false} FourWords(block: Block, t: nat, w0: bv32, w1: bv32, w2: bv32, w3: bv32, w4: bv32,
                                     w5: bv32, w8: bv32, w9: bv32, w10: bv32, w11: bv32, w13: bv32, w14: bv32,
                                     w15: bv32, w16: bv32, w17: bv32, w18: bv32, w19: bv32)
    requires WordIs(block, t, w0) && WordIs(block, t + 1, w1) && WordIs(block, t + 2, w2) && WordIs(block, t + 3, w3)
    requires WordIs(block, t + 4, w4) && WordIs(block, t + 5, w5) && WordIs(block, t + 8, w8)
    requires WordIs(block, t + 9, w9) && WordIs(block, t + 10, w10) && WordIs(block, t + 11, w11)
    requires WordIs(block, t + 13, w13) && WordIs(block, t + 14, w14) && WordIs(block, t + 15, w15)
    requires Mixed(w0, w2, w8, w13) == w16 && Mixed(w1, w3, w9, w14) == w17
    requires Mixed(w2, w4, w10, w15) == w18 && Mixed(w3, w5, w11, w16) == w19
    ensures WordIs(block, t + 16, w16) && WordIs(block, t + 17, w17)
    ensures WordIs(block, t + 18, w18) && WordIs(block, t + 19, w19)
  {
    hide WordIs, Mixed;
    OneWord(block, t + 16, w0, w2, w8, w13, w16);
    OneWord(block, t + 17, w1, w3, w9, w14, w17);
    OneWord(block, t + 18, w2, w4, w10, w15, w18);
    OneWord(block, t + 19, w3, w5, w11, w16, w19);
  }

  /** Sixteen words of the schedule. */
  ghost predicate WordsFrom(block: Block, t: nat, w0: bv32, w1: bv32, w2: bv32, w3: bv32, w4: bv32, w5: bv32,
                            w6: bv32, w7: bv32, w8: bv32, w9: bv32, w10: bv32, w11: bv32, w12: bv32, w13: bv32,
                            w14: bv32, w15: bv32) {
    && WordIs(block, t, w0) && WordIs(block, t + 1, w1) && WordIs(block, t + 2, w2) && WordIs(block, t + 3, w3)
    && WordIs(block, t + 4, w4) && WordIs(block, t + 5, w5) && WordIs(block, t + 6, w6) && WordIs(block, t + 7, w7)
    && WordIs(block, t + 8, w8) && WordIs(block, t + 9, w9) && WordIs(block, t + 10, w10) && WordIs(block, t + 11, w11)
    && WordIs(block, t + 12, w12) && WordIs(block, t + 13, w13) && WordIs(block, t + 14, w14)
    && WordIs(block, t + 15, w15)
  }

  lemma {:induction false} Begin(h: State, block: Block, x0: bv32, x1: bv32, x2: bv32, x3: bv32, x4: bv32)
    requires h == State(x4, x3, Rotl30(x2), Rotl30(x1), Rotl30(x0))
    ensures At(h, block, 0, x0, x1, x2, x3, x4)
  {
  }

  lemma {:induction false} End(h: State, block: Block, x0: bv32, x1: bv32, x2: bv32, x3: bv32, x4: bv32)
    requires At(h, block, 80, x0, x1, x2, x3, x4)
    ensures Compress(h, block) ==
      State(Plus(h.a, x4), Plus(h.b, x3), Plus(h.c, Rotl30(x2)), Plus(h.d, Rotl30(x1)), Plus(h.e, Rotl30(x0)))
  {
    hide Rounds, Rotl30, Plus;
  }

  // ---------- The blocks ----------

  // Each call of Four takes the last five registers and the four words, and gives the next four registers; each call of
  // FourWords gives four words of the schedule.

  lemma {:induction false} AbcSteps0To39(h: State, block: Block)
    requires At(h, block, 0, 0x0f4b87c3, 0x40c951d8, 0x62eb73fa, 0xefcdab89, 0x67452301)
    requires WordsFrom(block, 0,
      0x61626380, 0x00000000, 0x00000000, 0x00000000, 0x00000000, 0x00000000, 0x00000000, 0x00000000,
      0x00000000, 0x00000000, 0x00000000, 0x00000000, 0x00000000, 0x00000000, 0x00000000, 0x00000018)
    ensures At(h, block, 40, 0xdcbbb0cb, 0x0f511fd8, 0xdc63973f, 0x4c986405, 0x32de1cba)
    ensures WordsFrom(block, 24,
      0x85898ec1, 0x16263806, 0x00000000, 0x00000180, 0x2c4c700c, 0x000000f0, 0x93afb507, 0x5898e048,
      0x8e9a9202, 0x00000600, 0xb131c0f0, 0x16263bc6, 0x4ebed41e, 0x626380a1, 0x16263806, 0x000018c0)
  {
    hide At, WordIs;
    Four(h, block, 0, 0x0f4b87c3, 0x40c951d8, 0x62eb73fa, 0xefcdab89, 0x67452301, 0x0116fc33,
      0x8990536d, 0xa1390f08, 0xcdd8e11b, 0x61626380, 0x00000000, 0x00000000, 0x00000000);
    Four(h, block, 4, 0x67452301, 0x0116fc33, 0x8990536d, 0xa1390f08, 0xcdd8e11b, 0xcfd499de,
      0x3fc7ca40, 0x993e30c1, 0x9e8c07d4, 0x00000000, 0x00000000, 0x00000000, 0x00000000);
    Four(h, block, 8, 0xcdd8e11b, 0xcfd499de, 0x3fc7ca40, 0x993e30c1, 0x9e8c07d4, 0x4b6ae328,
      0x8351f929, 0xfbda9e89, 0x63188fe4, 0x00000000, 0x00000000, 0x00000000, 0x00000000);
    Four(h, block, 12, 0x9e8c07d4, 0x4b6ae328, 0x8351f929, 0xfbda9e89, 0x63188fe4, 0x4607b664,
      0x9128f695, 0x196bee77, 0x20bdd62f, 0x00000000, 0x00000000, 0x00000000, 0x00000018);
    FourWords(block, 0,
      0x61626380, 0x00000000, 0x00000000, 0x00000000, 0x00000000, 0x00000000, 0x00000000, 0x00000000, 0x00000000,
      0x00000000, 0x00000000, 0x00000000, 0x00000018, 0xc2c4c700, 0x00000000, 0x00000030, 0x85898e01);
    Four(h, block, 16, 0x63188fe4, 0x4607b664, 0x9128f695, 0x196bee77, 0x20bdd62f, 0x4e925823,
      0x82aa6728, 0xdc64901d, 0xfd9e1d7d, 0xc2c4c700, 0x00000000, 0x00000030, 0x85898e01);
    FourWords(block, 4,
      0x00000000, 0x00000000, 0x00000000, 0x00000000, 0x00000000, 0x00000000, 0x00000000, 0x00000000, 0x00000000,
      0x00000018, 0x00000000, 0x00000030, 0x85898e01, 0x00000000, 0x00000060, 0x0b131c03, 0x00000030);
    Four(h, block, 20, 0x20bdd62f, 0x4e925823, 0x82aa6728, 0xdc64901d, 0xfd9e1d7d, 0x1a37b0ca,
      0x33a23bfc, 0x21283486, 0xd541f12d, 0x00000000, 0x00000060, 0x0b131c03, 0x00000030);
    FourWords(block, 8,
      0x00000000, 0x00000000, 0x00000000, 0x00000000, 0x00000000, 0x00000000, 0xc2c4c700, 0x00000000, 0x00000030,
      0x85898e01, 0x00000060, 0x0b131c03, 0x00000030, 0x85898ec1, 0x16263806, 0x00000000, 0x00000180);
    Four(h, block, 24, 0xfd9e1d7d, 0x1a37b0ca, 0x33a23bfc, 0x21283486, 0xd541f12d, 0xc7567dc6,
      0x48413ba4, 0xbe35fbd5, 0x4aa84d97, 0x85898ec1, 0x16263806, 0x00000000, 0x00000180);
    FourWords(block, 12,
      0x00000000, 0x00000000, 0x00000000, 0x00000018, 0xc2c4c700, 0x00000000, 0x00000000, 0x00000060, 0x0b131c03,
      0x00000030, 0x16263806, 0x00000000, 0x00000180, 0x2c4c700c, 0x000000f0, 0x93afb507, 0x5898e048);
    Four(h, block, 28, 0xd541f12d, 0xc7567dc6, 0x48413ba4, 0xbe35fbd5, 0x4aa84d97, 0x8370b52e,
      0xc5fbaf5d, 0x1267b407, 0x3b845d33, 0x2c4c700c, 0x000000f0, 0x93afb507, 0x5898e048);
    FourWords(block, 16,
      0xc2c4c700, 0x00000000, 0x00000030, 0x85898e01, 0x00000000, 0x00000060, 0x85898ec1, 0x16263806, 0x00000000,
      0x00000180, 0x000000f0, 0x93afb507, 0x5898e048, 0x8e9a9202, 0x00000600, 0xb131c0f0, 0x16263bc6);
    Four(h, block, 32, 0x4aa84d97, 0x8370b52e, 0xc5fbaf5d, 0x1267b407, 0x3b845d33, 0x046faa0a,
      0x2c0ebc11, 0x21796ad4, 0xdcbbb0cb, 0x8e9a9202, 0x00000600, 0xb131c0f0, 0x16263bc6);
    FourWords(block, 20,
      0x00000000, 0x00000060, 0x0b131c03, 0x00000030, 0x85898ec1, 0x16263806, 0x2c4c700c, 0x000000f0, 0x93afb507,
      0x5898e048, 0x00000600, 0xb131c0f0, 0x16263bc6, 0x4ebed41e, 0x626380a1, 0x16263806, 0x000018c0);
    Four(h, block, 36, 0x3b845d33, 0x046faa0a, 0x2c0ebc11, 0x21796ad4, 0xdcbbb0cb, 0x0f511fd8,
      0xdc63973f, 0x4c986405, 0x32de1cba, 0x4ebed41e, 0x626380a1, 0x16263806, 0x000018c0);
  }

  lemma {:induction false} AbcSteps40To79(h: State, block: Block)
    requires At(h, block, 40, 0xdcbbb0cb, 0x0f511fd8, 0xdc63973f, 0x4c986405, 0x32de1cba)
    requires WordsFrom(block, 24,
      0x85898ec1, 0x16263806, 0x00000000, 0x00000180, 0x2c4c700c, 0x000000f0, 0x93afb507, 0x5898e048,
      0x8e9a9202, 0x00000600, 0xb131c0f0, 0x16263bc6, 0x4ebed41e, 0x626380a1, 0x16263806, 0x000018c0)
    ensures At(h, block, 80, 0x63f7dab7, 0xa079b7d9, 0x860d21cc, 0x5738d5e1, 0x42541b35)
  {
    hide At, WordIs;
    FourWords(block, 24,
      0x85898ec1, 0x16263806, 0x00000000, 0x00000180, 0x2c4c700c, 0x000000f0, 0x8e9a9202, 0x00000600, 0xb131c0f0,
      0x16263bc6, 0x626380a1, 0x16263806, 0x000018c0, 0xd2e138c4, 0x00000f00, 0x3afb5079, 0x898e04e5);
    Four(h, block, 40, 0xdcbbb0cb, 0x0f511fd8, 0xdc63973f, 0x4c986405, 0x32de1cba, 0xfc87dedf,
      0x970a0d5c, 0x7f193dc5, 0xee1b1aaf, 0xd2e138c4, 0x00000f00, 0x3afb5079, 0x898e04e5);
    FourWords(block, 28,
      0x2c4c700c, 0x000000f0, 0x93afb507, 0x5898e048, 0x8e9a9202, 0x00000600, 0x4ebed41e, 0x626380a1, 0x16263806,
      0x000018c0, 0x00000f00, 0x3afb5079, 0x898e04e5, 0xe2ba3c2b, 0x000060c0, 0x053a37cd, 0x74458547);
    Four(h, block, 44, 0x32de1cba, 0xfc87dedf, 0x970a0d5c, 0x7f193dc5, 0xee1b1aaf, 0x40f28e09,
      0x1c51e1f2, 0xa01b846c, 0xbead02ca, 0xe2ba3c2b, 0x000060c0, 0x053a37cd, 0x74458547);
    FourWords(block, 32,
      0x8e9a9202, 0x00000600, 0xb131c0f0, 0x16263bc6, 0x4ebed41e, 0x626380a1, 0xd2e138c4, 0x00000f00, 0x3afb5079,
      0x898e04e5, 0x000060c0, 0x053a37cd, 0x74458547, 0xda9415ed, 0x26380a16, 0x626383a1, 0x4ebf54de);
    Four(h, block, 48, 0xee1b1aaf, 0x40f28e09, 0x1c51e1f2, 0xa01b846c, 0xbead02ca, 0xbaf39337,
      0x120731c5, 0x641db2ce, 0x3847ad66, 0xda9415ed, 0x26380a16, 0x626383a1, 0x4ebf54de);
    FourWords(block, 36,
      0x4ebed41e, 0x626380a1, 0x16263806, 0x000018c0, 0xd2e138c4, 0x00000f00, 0xe2ba3c2b, 0x000060c0, 0x053a37cd,
      0x74458547, 0x26380a16, 0x626383a1, 0x4ebf54de, 0x3835b44b, 0x0000f600, 0x1e84c7a3, 0x98e04d98);
    Four(h, block, 52, 0xbead02ca, 0xbaf39337, 0x120731c5, 0x641db2ce, 0x3847ad66, 0xe490436d,
      0x27e9f1d8, 0x7b71f76d, 0x5e6456af, 0x3835b44b, 0x0000f600, 0x1e84c7a3, 0x98e04d98);
    FourWords(block, 40,
      0xd2e138c4, 0x00000f00, 0x3afb5079, 0x898e04e5, 0xe2ba3c2b, 0x000060c0, 0xda9415ed, 0x26380a16, 0x626383a1,
      0x4ebf54de, 0x0000f600, 0x1e84c7a3, 0x98e04d98, 0x651d16a0, 0x62658ca1, 0x458544d6, 0x44584cb7);
    Four(h, block, 56, 0x3847ad66, 0xe490436d, 0x27e9f1d8, 0x7b71f76d, 0x5e6456af, 0xc846093f,
      0xd262ff50, 0x09d785fd, 0x3f52de5a, 0x651d16a0, 0x62658ca1, 0x458544d6, 0x44584cb7);
    FourWords(block, 44,
      0xe2ba3c2b, 0x000060c0, 0x053a37cd, 0x74458547, 0xda9415ed, 0x26380a16, 0x3835b44b, 0x0000f600, 0x1e84c7a3,
      0x98e04d98, 0x62658ca1, 0x458544d6, 0x44584cb7, 0x7ba06619, 0x6380aea2, 0x0ae55269, 0x627b49a1);
    Four(h, block, 60, 0x5e6456af, 0xc846093f, 0xd262ff50, 0x09d785fd, 0x3f52de5a, 0xd756c147,
      0x548c9cb2, 0xb66c020b, 0x6b61c9e1, 0x7ba06619, 0x6380aea2, 0x0ae55269, 0x627b49a1);
    FourWords(block, 48,
      0xda9415ed, 0x26380a16, 0x626383a1, 0x4ebf54de, 0x3835b44b, 0x0000f600, 0x651d16a0, 0x62658ca1, 0x458544d6,
      0x44584cb7, 0x6380aea2, 0x0ae55269, 0x627b49a1, 0x7cd45c9d, 0x000f0000, 0xfb50753a, 0xec6765e8);
    Four(h, block, 64, 0x3f52de5a, 0xd756c147, 0x548c9cb2, 0xb66c020b, 0x6b61c9e1, 0x19dfa7ac,
      0x101655f9, 0x0c3df2b4, 0x78dd4d2b, 0x7cd45c9d, 0x000f0000, 0xfb50753a, 0xec6765e8);
    FourWords(block, 52,
      0x3835b44b, 0x0000f600, 0x1e84c7a3, 0x98e04d98, 0x651d16a0, 0x62658ca1, 0x7ba06619, 0x6380aea2, 0x0ae55269,
      0x627b49a1, 0x000f0000, 0xfb50753a, 0xec6765e8, 0xba3c2be2, 0x0060c000, 0x3a37cd05, 0x458546f4);
    Four(h, block, 68, 0x6b61c9e1, 0x19dfa7ac, 0x101655f9, 0x0c3df2b4, 0x78dd4d2b, 0x497093c0,
      0x3f2588c2, 0xc199f8c7, 0x39859de7, 0xba3c2be2, 0x0060c000, 0x3a37cd05, 0x458546f4);
    FourWords(block, 56,
      0x651d16a0, 0x62658ca1, 0x458544d6, 0x44584cb7, 0x7ba06619, 0x6380aea2, 0x7cd45c9d, 0x000f0000, 0xfb50753a,
      0xec6765e8, 0x0060c000, 0x3a37cd05, 0x458546f4, 0xb8599dd6, 0x380a1a26, 0x01e02203, 0xe7cc3456);
    Four(h, block, 72, 0x78dd4d2b, 0x497093c0, 0x3f2588c2, 0xc199f8c7, 0x39859de7, 0xedb42de4,
      0x11793f6f, 0x5ee76897, 0x63f7dab7, 0xb8599dd6, 0x380a1a26, 0x01e02203, 0xe7cc3456);
    FourWords(block, 60,
      0x7ba06619, 0x6380aea2, 0x0ae55269, 0x627b49a1, 0x7cd45c9d, 0x000f0000, 0xba3c2be2, 0x0060c000, 0x3a37cd05,
      0x458546f4, 0x380a1a26, 0x01e02203, 0xe7cc3456, 0xe6e60b69, 0x00f60a00, 0x5795ef4f, 0x822e0879);
    Four(h, block, 76, 0x39859de7, 0xedb42de4, 0x11793f6f, 0x5ee76897, 0x63f7dab7, 0xa079b7d9,
      0x860d21cc, 0x5738d5e1, 0x42541b35, 0xe6e60b69, 0x00f60a00, 0x5795ef4f, 0x822e0879);
  }

  /** The block of "abc". */
  lemma {:induction false} AbcBlock(block: Block)
    requires WordsFrom(block, 0,
      0x61626380, 0x00000000, 0x00000000, 0x00000000, 0x00000000, 0x00000000, 0x00000000, 0x00000000,
      0x00000000, 0x00000000, 0x00000000, 0x00000000, 0x00000000, 0x00000000, 0x00000000, 0x00000018)
    ensures Compress(State(0x67452301, 0xefcdab89, 0x98badcfe, 0x10325476, 0xc3d2e1f0), block)
      == State(0xa9993e36, 0x4706816a, 0xba3e2571, 0x7850c26c, 0x9cd0d89d)
  {
    hide At, WordsFrom, Compress;
    var h := State(0x67452301, 0xefcdab89, 0x98badcfe, 0x10325476, 0xc3d2e1f0);
    Begin(h, block, 0x0f4b87c3, 0x40c951d8, 0x62eb73fa, 0xefcdab89, 0x67452301);
    AbcSteps0To39(h, block);
    AbcSteps40To79(h, block);
    End(h, block, 0x63f7dab7, 0xa079b7d9, 0x860d21cc, 0x5738d5e1, 0x42541b35);
  }

  lemma {:induction false} FirstSteps0To39(h: State, block: Block)
    requires At(h, block, 0, 0x0f4b87c3, 0x40c951d8, 0x62eb73fa, 0xefcdab89, 0x67452301)
    requires WordsFrom(block, 0,
      0x61626364, 0x62636465, 0x63646566, 0x64656667, 0x65666768, 0x66676869, 0x6768696a, 0x68696a6b,
      0x696a6b6c, 0x6a6b6c6d, 0x6b6c6d6e, 0x6c6d6e6f, 0x6d6e6f70, 0x6e6f7071, 0x80000000, 0x00000000)
    ensures At(h, block, 40, 0xab7c32ee, 0x5933fc99, 0x43f87ae9, 0x24957f22, 0xadeb7478)
    ensures WordsFrom(block, 24,
      0xfaf6cab6, 0xa6fb675a, 0x0c604cc8, 0x604cc02c, 0x49c0e6e2, 0x2ee8cbbc, 0xcfd72ec4, 0x97e9810e,
      0x0989cbe8, 0xf24843fe, 0x5c40d0ba, 0xa8d9cc3b, 0xb2b9666e, 0xba7b71b7, 0x20b28a72, 0xb28af500)
  {
    hide At, WordIs;
    Four(h, block, 0, 0x0f4b87c3, 0x40c951d8, 0x62eb73fa, 0xefcdab89, 0x67452301, 0x0116fc17,
      0xebf3b452, 0x5109913a, 0x2c4f6eac, 0x61626364, 0x62636465, 0x63646566, 0x64656667);
    Four(h, block, 4, 0x67452301, 0x0116fc17, 0xebf3b452, 0x5109913a, 0x2c4f6eac, 0x33f4ae5b,
      0x96b85189, 0xdb04cb58, 0x45833f0f, 0x65666768, 0x66676869, 0x6768696a, 0x68696a6b);
    Four(h, block, 8, 0x2c4f6eac, 0x33f4ae5b, 0x96b85189, 0xdb04cb58, 0x45833f0f, 0xc565c35e,
      0x6350afda, 0x8993ea77, 0xe19ecaa2, 0x696a6b6c, 0x6a6b6c6d, 0x6b6c6d6e, 0x6c6d6e6f);
    Four(h, block, 12, 0x45833f0f, 0xc565c35e, 0x6350afda, 0x8993ea77, 0xe19ecaa2, 0x8603481e,
      0x32f94a85, 0xb2e7a8be, 0x42637e39, 0x6d6e6f70, 0x6e6f7071, 0x80000000, 0x00000000);
    FourWords(block, 0,
      0x61626364, 0x62636465, 0x63646566, 0x64656667, 0x65666768, 0x66676869, 0x696a6b6c, 0x6a6b6c6d, 0x6b6c6d6e,
      0x6c6d6e6f, 0x6e6f7071, 0x80000000, 0x00000000, 0x0a063a3e, 0xd8dadcdf, 0xdadcdec0, 0xc8d2b4be);
    Four(h, block, 16, 0xe19ecaa2, 0x8603481e, 0x32f94a85, 0xb2e7a8be, 0x42637e39, 0x6b068048,
      0x426b9c35, 0x944b1bd1, 0x6c445652, 0x0a063a3e, 0xd8dadcdf, 0xdadcdec0, 0xc8d2b4be);
    FourWords(block, 4,
      0x65666768, 0x66676869, 0x6768696a, 0x68696a6b, 0x696a6b6c, 0x6a6b6c6d, 0x6d6e6f70, 0x6e6f7071, 0x80000000,
      0x00000000, 0xd8dadcdf, 0xdadcdec0, 0xc8d2b4be, 0x6f757b5b, 0x757b5967, 0x8da16d70, 0xdaeefaba);
    Four(h, block, 20, 0x42637e39, 0x6b068048, 0x426b9c35, 0x944b1bd1, 0x6c445652, 0x95836da5,
      0x09511177, 0xe2b92dc4, 0xfd224575, 0x6f757b5b, 0x757b5967, 0x8da16d70, 0xdaeefaba);
    FourWords(block, 8,
      0x696a6b6c, 0x6a6b6c6d, 0x6b6c6d6e, 0x6c6d6e6f, 0x6d6e6f70, 0x6e6f7071, 0x0a063a3e, 0xd8dadcdf, 0xdadcdec0,
      0xc8d2b4be, 0x757b5967, 0x8da16d70, 0xdaeefaba, 0xfaf6cab6, 0xa6fb675a, 0x0c604cc8, 0x604cc02c);
    Four(h, block, 24, 0x6c445652, 0x95836da5, 0x09511177, 0xe2b92dc4, 0xfd224575, 0xeeb82d9a,
      0x5a142c1a, 0x2972f7c7, 0xd526a644, 0xfaf6cab6, 0xa6fb675a, 0x0c604cc8, 0x604cc02c);
    FourWords(block, 12,
      0x6d6e6f70, 0x6e6f7071, 0x80000000, 0x00000000, 0x0a063a3e, 0xd8dadcdf, 0x6f757b5b, 0x757b5967, 0x8da16d70,
      0xdaeefaba, 0xa6fb675a, 0x0c604cc8, 0x604cc02c, 0x49c0e6e2, 0x2ee8cbbc, 0xcfd72ec4, 0x97e9810e);
    Four(h, block, 28, 0xfd224575, 0xeeb82d9a, 0x5a142c1a, 0x2972f7c7, 0xd526a644, 0xe1122421,
      0x05b457b2, 0xa9c84bec, 0x52e31f60, 0x49c0e6e2, 0x2ee8cbbc, 0xcfd72ec4, 0x97e9810e);
    FourWords(block, 16,
      0x0a063a3e, 0xd8dadcdf, 0xdadcdec0, 0xc8d2b4be, 0x6f757b5b, 0x757b5967, 0xfaf6cab6, 0xa6fb675a, 0x0c604cc8,
      0x604cc02c, 0x2ee8cbbc, 0xcfd72ec4, 0x97e9810e, 0x0989cbe8, 0xf24843fe, 0x5c40d0ba, 0xa8d9cc3b);
    Four(h, block, 32, 0xd526a644, 0xe1122421, 0x05b457b2, 0xa9c84bec, 0x52e31f60, 0x5af3242c,
      0x31c756a9, 0xe9ac987c, 0xab7c32ee, 0x0989cbe8, 0xf24843fe, 0x5c40d0ba, 0xa8d9cc3b);
    FourWords(block, 20,
      0x6f757b5b, 0x757b5967, 0x8da16d70, 0xdaeefaba, 0xfaf6cab6, 0xa6fb675a, 0x49c0e6e2, 0x2ee8cbbc, 0xcfd72ec4,
      0x97e9810e, 0xf24843fe, 0x5c40d0ba, 0xa8d9cc3b, 0xb2b9666e, 0xba7b71b7, 0x20b28a72, 0xb28af500);
    Four(h, block, 36, 0x52e31f60, 0x5af3242c, 0x31c756a9, 0xe9ac987c, 0xab7c32ee, 0x5933fc99,
      0x43f87ae9, 0x24957f22, 0xadeb7478, 0xb2b9666e, 0xba7b71b7, 0x20b28a72, 0xb28af500);
  }

  lemma {:induction false} FirstSteps40To79(h: State, block: Block)
    requires At(h, block, 40, 0xab7c32ee, 0x5933fc99, 0x43f87ae9, 0x24957f22, 0xadeb7478)
    requires WordsFrom(block, 24,
      0xfaf6cab6, 0xa6fb675a, 0x0c604cc8, 0x604cc02c, 0x49c0e6e2, 0x2ee8cbbc, 0xcfd72ec4, 0x97e9810e,
      0x0989cbe8, 0xf24843fe, 0x5c40d0ba, 0xa8d9cc3b, 0xb2b9666e, 0xba7b71b7, 0x20b28a72, 0xb28af500)
    ensures At(h, block, 80, 0x1a0e0e0a, 0xd0d47349, 0xad38620d, 0xd3ad7c25, 0x8ce34517)
  {
    hide At, WordIs;
    FourWords(block, 24,
      0xfaf6cab6, 0xa6fb675a, 0x0c604cc8, 0x604cc02c, 0x49c0e6e2, 0x2ee8cbbc, 0x0989cbe8, 0xf24843fe, 0x5c40d0ba,
      0xa8d9cc3b, 0xba7b71b7, 0x20b28a72, 0xb28af500, 0x8ac87842, 0x289addf4, 0x56d51f21, 0xd96b7fd2);
    Four(h, block, 40, 0xab7c32ee, 0x5933fc99, 0x43f87ae9, 0x24957f22, 0xadeb7478, 0xd70e5010,
      0x79bcfb08, 0xf9bcb8de, 0x633e9561, 0x8ac87842, 0x289addf4, 0x56d51f21, 0xd96b7fd2);
    FourWords(block, 28,
      0x49c0e6e2, 0x2ee8cbbc, 0xcfd72ec4, 0x97e9810e, 0x0989cbe8, 0xf24843fe, 0xb2b9666e, 0xba7b71b7, 0x20b28a72,
      0xb28af500, 0x289addf4, 0x56d51f21, 0xd96b7fd2, 0x3868e778, 0xab5e4848, 0x7f0e2118, 0xde87a111);
    Four(h, block, 44, 0xadeb7478, 0xd70e5010, 0x79bcfb08, 0xf9bcb8de, 0x633e9561, 0x98c1ea64,
      0xc6ea241e, 0xa2ad4f02, 0xc8a69090, 0x3868e778, 0xab5e4848, 0x7f0e2118, 0xde87a111);
    FourWords(block, 32,
      0x0989cbe8, 0xf24843fe, 0x5c40d0ba, 0xa8d9cc3b, 0xb2b9666e, 0xba7b71b7, 0x8ac87842, 0x289addf4, 0x56d51f21,
      0xd96b7fd2, 0xab5e4848, 0x7f0e2118, 0xde87a111, 0xe8be56b0, 0x1a0ae652, 0xcd5611c8, 0x46ef29dc);
    Four(h, block, 48, 0x633e9561, 0x98c1ea64, 0xc6ea241e, 0xa2ad4f02, 0xc8a69090, 0x88341600,
      0x7e846f58, 0x86e358ba, 0x8d2e76c8, 0xe8be56b0, 0x1a0ae652, 0xcd5611c8, 0x46ef29dc);
    FourWords(block, 36,
      0xb2b9666e, 0xba7b71b7, 0x20b28a72, 0xb28af500, 0x8ac87842, 0x289addf4, 0x3868e778, 0xab5e4848, 0x7f0e2118,
      0xde87a111, 0x1a0ae652, 0xcd5611c8, 0x46ef29dc, 0x60d3da6d, 0xddf3ba6e, 0x2737f5e9, 0x4888a710);
    Four(h, block, 52, 0xc8a69090, 0x88341600, 0x7e846f58, 0x86e358ba, 0x8d2e76c8, 0xce892e10,
      0xedea95b1, 0x36d1230a, 0x776c3910, 0x60d3da6d, 0xddf3ba6e, 0x2737f5e9, 0x4888a710);
    FourWords(block, 40,
      0x8ac87842, 0x289addf4, 0x56d51f21, 0xd96b7fd2, 0x3868e778, 0xab5e4848, 0xe8be56b0, 0x1a0ae652, 0xcd5611c8,
      0x46ef29dc, 0xddf3ba6e, 0x2737f5e9, 0x4888a710, 0xd2a1177b, 0x9999633b, 0xd6c69d03, 0xccf6127b);
    Four(h, block, 56, 0x8d2e76c8, 0xce892e10, 0xedea95b1, 0x36d1230a, 0x776c3910, 0xa681b723,
      0xac0a794f, 0xf03d3782, 0x9ef775c3, 0xd2a1177b, 0x9999633b, 0xd6c69d03, 0xccf6127b);
    FourWords(block, 44,
      0x3868e778, 0xab5e4848, 0x7f0e2118, 0xde87a111, 0xe8be56b0, 0x1a0ae652, 0x60d3da6d, 0xddf3ba6e, 0x2737f5e9,
      0x4888a710, 0x9999633b, 0xd6c69d03, 0xccf6127b, 0x7c58fe6d, 0xfdd99c68, 0xf8e32074, 0xe0ba3c7d);
    Four(h, block, 60, 0x776c3910, 0xa681b723, 0xac0a794f, 0xf03d3782, 0x9ef775c3, 0x36254b13,
      0x4080d4dc, 0x2bfaf7a8, 0x513f9ca0, 0x7c58fe6d, 0xfdd99c68, 0xf8e32074, 0xe0ba3c7d);
    FourWords(block, 48,
      0xe8be56b0, 0x1a0ae652, 0xcd5611c8, 0x46ef29dc, 0x60d3da6d, 0xddf3ba6e, 0xd2a1177b, 0x9999633b, 0xd6c69d03,
      0xccf6127b, 0xfdd99c68, 0xf8e32074, 0xe0ba3c7d, 0x152198d6, 0x7b3f1982, 0x37f2d5b7, 0x8596323e);
    Four(h, block, 64, 0x9ef775c3, 0x36254b13, 0x4080d4dc, 0x2bfaf7a8, 0x513f9ca0, 0xe5895c81,
      0x1037d2d5, 0x14a82da9, 0x6d17c9fd, 0x152198d6, 0x7b3f1982, 0x37f2d5b7, 0x8596323e);
    FourWords(block, 52,
      0x60d3da6d, 0xddf3ba6e, 0x2737f5e9, 0x4888a710, 0xd2a1177b, 0x9999633b, 0x7c58fe6d, 0xfdd99c68, 0xf8e32074,
      0xe0ba3c7d, 0x7b3f1982, 0x37f2d5b7, 0x8596323e, 0x810790d6, 0xbea0a942, 0x11c7e1b1, 0x6158d101);
    Four(h, block, 68, 0x513f9ca0, 0xe5895c81, 0x1037d2d5, 0x14a82da9, 0x6d17c9fd, 0x2c7b07bd,
      0xfdf6efff, 0x112b96e3, 0x84065712, 0x810790d6, 0xbea0a942, 0x11c7e1b1, 0x6158d101);
    FourWords(block, 56,
      0xd2a1177b, 0x9999633b, 0xd6c69d03, 0xccf6127b, 0x7c58fe6d, 0xfdd99c68, 0x152198d6, 0x7b3f1982, 0x37f2d5b7,
      0x8596323e, 0xbea0a942, 0x11c7e1b1, 0x6158d101, 0x5fcd77d9, 0x7f2f12e6, 0xf868cfb1, 0xd6e997e9);
    Four(h, block, 72, 0x6d17c9fd, 0x2c7b07bd, 0xfdf6efff, 0x112b96e3, 0x84065712, 0xab89fb71,
      0xc5210e35, 0x352d9f4b, 0x1a0e0e0a, 0x5fcd77d9, 0x7f2f12e6, 0xf868cfb1, 0xd6e997e9);
    FourWords(block, 60,
      0x7c58fe6d, 0xfdd99c68, 0xf8e32074, 0xe0ba3c7d, 0x152198d6, 0x7b3f1982, 0x810790d6, 0xbea0a942, 0x11c7e1b1,
      0x6158d101, 0x7f2f12e6, 0xf868cfb1, 0xd6e997e9, 0xf526b852, 0xb7578dcc, 0x55d99df4, 0x1ff69958);
    Four(h, block, 76, 0x84065712, 0xab89fb71, 0xc5210e35, 0x352d9f4b, 0x1a0e0e0a, 0xd0d47349,
      0xad38620d, 0xd3ad7c25, 0x8ce34517, 0xf526b852, 0xb7578dcc, 0x55d99df4, 0x1ff69958);
  }

  /** The first block of the longer message. */
  lemma {:induction false} FirstBlock(block: Block)
    requires WordsFrom(block, 0,
      0x61626364, 0x62636465, 0x63646566, 0x64656667, 0x65666768, 0x66676869, 0x6768696a, 0x68696a6b,
      0x696a6b6c, 0x6a6b6c6d, 0x6b6c6d6e, 0x6c6d6e6f, 0x6d6e6f70, 0x6e6f7071, 0x80000000, 0x00000000)
    ensures Compress(State(0x67452301, 0xefcdab89, 0x98badcfe, 0x10325476, 0xc3d2e1f0), block)
      == State(0xf4286818, 0xc37b27ae, 0x0408f581, 0x84677148, 0x4a566572)
  {
    hide At, WordsFrom, Compress;
    var h := State(0x67452301, 0xefcdab89, 0x98badcfe, 0x10325476, 0xc3d2e1f0);
    Begin(h, block, 0x0f4b87c3, 0x40c951d8, 0x62eb73fa, 0xefcdab89, 0x67452301);
    FirstSteps0To39(h, block);
    FirstSteps40To79(h, block);
    End(h, block, 0x1a0e0e0a, 0xd0d47349, 0xad38620d, 0xd3ad7c25, 0x8ce34517);
  }

  lemma {:induction false} SecondSteps0To39(h: State, block: Block)
    requires At(h, block, 0, 0x295995c9, 0x119dc522, 0x1023d604, 0xc37b27ae, 0xf4286818)
    requires WordsFrom(block, 0,
      0x00000000, 0x00000000, 0x00000000, 0x00000000, 0x00000000, 0x00000000, 0x00000000, 0x00000000,
      0x00000000, 0x00000000, 0x00000000, 0x00000000, 0x00000000, 0x00000000, 0x00000000, 0x000001c0)
    ensures At(h, block, 40, 0x696da404, 0xcef5ae12, 0x87d5b80c, 0x84e2a5f2, 0x03bb6310)
    ensures WordsFrom(block, 24,
      0x00000e00, 0x00000000, 0x00000000, 0x00001c00, 0x00000000, 0x00000d80, 0x00003800, 0x00000480,
      0x00000000, 0x00007000, 0x00000e00, 0x00003600, 0x0000e000, 0x00000e00, 0x00000000, 0x0001ce00)
  {
    hide At, WordIs;
    Four(h, block, 0, 0x295995c9, 0x119dc522, 0x1023d604, 0xc37b27ae, 0xf4286818, 0x2df257e9,
      0x4d3dc58f, 0xc352bb05, 0xeef743c6, 0x00000000, 0x00000000, 0x00000000, 0x00000000);
    Four(h, block, 4, 0xf4286818, 0x2df257e9, 0x4d3dc58f, 0xc352bb05, 0xeef743c6, 0x41e34277,
      0x5443915c, 0xe7fa0377, 0xc6946813, 0x00000000, 0x00000000, 0x00000000, 0x00000000);
    Four(h, block, 8, 0xeef743c6, 0x41e34277, 0x5443915c, 0xe7fa0377, 0xc6946813, 0xfdde1de1,
      0xb8538aca, 0x6ba94f63, 0x43a2792f, 0x00000000, 0x00000000, 0x00000000, 0x00000000);
    Four(h, block, 12, 0xc6946813, 0xfdde1de1, 0xb8538aca, 0x6ba94f63, 0x43a2792f, 0xfecd7bbf,
      0xa2604ca8, 0x258b0baa, 0xd9772360, 0x00000000, 0x00000000, 0x00000000, 0x000001c0);
    FourWords(block, 0,
      0x00000000, 0x00000000, 0x00000000, 0x00000000, 0x00000000, 0x00000000, 0x00000000, 0x00000000, 0x00000000,
      0x00000000, 0x00000000, 0x00000000, 0x000001c0, 0x00000000, 0x00000000, 0x00000380, 0x00000000);
    Four(h, block, 16, 0x43a2792f, 0xfecd7bbf, 0xa2604ca8, 0x258b0baa, 0xd9772360, 0x5507db6e,
      0xa51b58bc, 0xc2eb709f, 0xd8992153, 0x00000000, 0x00000000, 0x00000380, 0x00000000);
    FourWords(block, 4,
      0x00000000, 0x00000000, 0x00000000, 0x00000000, 0x00000000, 0x00000000, 0x00000000, 0x00000000, 0x00000000,
      0x000001c0, 0x00000000, 0x00000380, 0x00000000, 0x00000000, 0x00000700, 0x00000000, 0x00000380);
    Four(h, block, 20, 0xd9772360, 0x5507db6e, 0xa51b58bc, 0xc2eb709f, 0xd8992153, 0x37482f5f,
      0xee8700bd, 0x9ad594b9, 0x8fbaa5b9, 0x00000000, 0x00000700, 0x00000000, 0x00000380);
    FourWords(block, 8,
      0x00000000, 0x00000000, 0x00000000, 0x00000000, 0x00000000, 0x00000000, 0x00000000, 0x00000000, 0x00000380,
      0x00000000, 0x00000700, 0x00000000, 0x00000380, 0x00000e00, 0x00000000, 0x00000000, 0x00001c00);
    Four(h, block, 24, 0xd8992153, 0x37482f5f, 0xee8700bd, 0x9ad594b9, 0x8fbaa5b9, 0x88fb5867,
      0xeec50521, 0x50bce434, 0x5c416daf, 0x00000e00, 0x00000000, 0x00000000, 0x00001c00);
    FourWords(block, 12,
      0x00000000, 0x00000000, 0x00000000, 0x000001c0, 0x00000000, 0x00000000, 0x00000000, 0x00000700, 0x00000000,
      0x00000380, 0x00000000, 0x00000000, 0x00001c00, 0x00000000, 0x00000d80, 0x00003800, 0x00000480);
    Four(h, block, 28, 0x8fbaa5b9, 0x88fb5867, 0xeec50521, 0x50bce434, 0x5c416daf, 0x2429be5f,
      0x0a2fb108, 0x17986223, 0x8a4af384, 0x00000000, 0x00000d80, 0x00003800, 0x00000480);
    FourWords(block, 16,
      0x00000000, 0x00000000, 0x00000380, 0x00000000, 0x00000000, 0x00000700, 0x00000e00, 0x00000000, 0x00000000,
      0x00001c00, 0x00000d80, 0x00003800, 0x00000480, 0x00000000, 0x00007000, 0x00000e00, 0x00003600);
    Four(h, block, 32, 0x5c416daf, 0x2429be5f, 0x0a2fb108, 0x17986223, 0x8a4af384, 0x6b629993,
      0xf15f04f3, 0x295cc25b, 0x696da404, 0x00000000, 0x00007000, 0x00000e00, 0x00003600);
    FourWords(block, 20,
      0x00000000, 0x00000700, 0x00000000, 0x00000380, 0x00000e00, 0x00000000, 0x00000000, 0x00000d80, 0x00003800,
      0x00000480, 0x00007000, 0x00000e00, 0x00003600, 0x0000e000, 0x00000e00, 0x00000000, 0x0001ce00);
    Four(h, block, 36, 0x8a4af384, 0x6b629993, 0xf15f04f3, 0x295cc25b, 0x696da404, 0xcef5ae12,
      0x87d5b80c, 0x84e2a5f2, 0x03bb6310, 0x0000e000, 0x00000e00, 0x00000000, 0x0001ce00);
  }

  lemma {:induction false} SecondSteps40To79(h: State, block: Block)
    requires At(h, block, 40, 0x696da404, 0xcef5ae12, 0x87d5b80c, 0x84e2a5f2, 0x03bb6310)
    requires WordsFrom(block, 24,
      0x00000e00, 0x00000000, 0x00000000, 0x00001c00, 0x00000000, 0x00000d80, 0x00003800, 0x00000480,
      0x00000000, 0x00007000, 0x00000e00, 0x00003600, 0x0000e000, 0x00000e00, 0x00000000, 0x0001ce00)
    ensures At(h, block, 80, 0x6bc02dfe, 0xd3a6e275, 0xda955482, 0x58c0aac0, 0x906fd62c)
  {
    hide At, WordIs;
    FourWords(block, 24,
      0x00000e00, 0x00000000, 0x00000000, 0x00001c00, 0x00000000, 0x00000d80, 0x00000000, 0x00007000, 0x00000e00,
      0x00003600, 0x00000e00, 0x00000000, 0x0001ce00, 0x00000000, 0x0000d800, 0x00038000, 0x00004f00);
    Four(h, block, 40, 0x696da404, 0xcef5ae12, 0x87d5b80c, 0x84e2a5f2, 0x03bb6310, 0xc2d8f75f,
      0xbfb25768, 0x28589152, 0xec1d3d61, 0x00000000, 0x0000d800, 0x00038000, 0x00004f00);
    FourWords(block, 28,
      0x00000000, 0x00000d80, 0x00003800, 0x00000480, 0x00000000, 0x00007000, 0x0000e000, 0x00000e00, 0x00000000,
      0x0001ce00, 0x0000d800, 0x00038000, 0x00004f00, 0x00000000, 0x00070e00, 0x0000ee00, 0x00037500);
    Four(h, block, 44, 0x03bb6310, 0xc2d8f75f, 0xbfb25768, 0x28589152, 0xec1d3d61, 0x3caed7af,
      0xc3d033ea, 0x7316056a, 0x46f93b68, 0x00000000, 0x00070e00, 0x0000ee00, 0x00037500);
    FourWords(block, 32,
      0x00000000, 0x00007000, 0x00000e00, 0x00003600, 0x0000e000, 0x00000e00, 0x00000000, 0x0000d800, 0x00038000,
      0x00004f00, 0x00070e00, 0x0000ee00, 0x00037500, 0x000e0000, 0x0000e000, 0x00003600, 0x001cee00);
    Four(h, block, 48, 0xec1d3d61, 0x3caed7af, 0xc3d033ea, 0x7316056a, 0x46f93b68, 0xdc8e7f26,
      0x850d411c, 0x7e4672c0, 0x89fbd41d, 0x000e0000, 0x0000e000, 0x00003600, 0x001cee00);
    FourWords(block, 36,
      0x0000e000, 0x00000e00, 0x00000000, 0x0001ce00, 0x00000000, 0x0000d800, 0x00000000, 0x00070e00, 0x0000ee00,
      0x00037500, 0x0000e000, 0x00003600, 0x001cee00, 0x00000000, 0x000df000, 0x00380000, 0x0004c600);
    Four(h, block, 52, 0x46f93b68, 0xdc8e7f26, 0x850d411c, 0x7e4672c0, 0x89fbd41d, 0x1797e228,
      0x431d65bc, 0x2bdbb8cb, 0x6da72e7f, 0x00000000, 0x000df000, 0x00380000, 0x0004c600);
    FourWords(block, 40,
      0x00000000, 0x0000d800, 0x00038000, 0x00004f00, 0x00000000, 0x00070e00, 0x000e0000, 0x0000e000, 0x00003600,
      0x001cee00, 0x000df000, 0x00380000, 0x0004c600, 0x0000e000, 0x0070ee00, 0x000ee000, 0x00369e00);
    Four(h, block, 56, 0x89fbd41d, 0x1797e228, 0x431d65bc, 0x2bdbb8cb, 0x6da72e7f, 0xa8495a9b,
      0xe785655a, 0x5b086c42, 0xa65818f7, 0x0000e000, 0x0070ee00, 0x000ee000, 0x00369e00);
    FourWords(block, 44,
      0x00000000, 0x00070e00, 0x0000ee00, 0x00037500, 0x000e0000, 0x0000e000, 0x00000000, 0x000df000, 0x00380000,
      0x0004c600, 0x0070ee00, 0x000ee000, 0x00369e00, 0x00e00000, 0x000ed600, 0x0000e000, 0x01cea600);
    Four(h, block, 60, 0x6da72e7f, 0xa8495a9b, 0xe785655a, 0x5b086c42, 0xa65818f7, 0x7aab101b,
      0x93614c9c, 0xf66d9bf4, 0xd504902b, 0x00e00000, 0x000ed600, 0x0000e000, 0x01cea600);
    FourWords(block, 48,
      0x000e0000, 0x0000e000, 0x00003600, 0x001cee00, 0x00000000, 0x000df000, 0x0000e000, 0x0070ee00, 0x000ee000,
      0x00369e00, 0x000ed600, 0x0000e000, 0x01cea600, 0x00000000, 0x00d80000, 0x0380e000, 0x004f0000);
    Four(h, block, 64, 0xa65818f7, 0x7aab101b, 0x93614c9c, 0xf66d9bf4, 0xd504902b, 0x60a9da62,
      0x8b687819, 0x083e90c3, 0xf6226bbf, 0x00000000, 0x00d80000, 0x0380e000, 0x004f0000);
    FourWords(block, 52,
      0x00000000, 0x000df000, 0x00380000, 0x0004c600, 0x0000e000, 0x0070ee00, 0x00e00000, 0x000ed600, 0x0000e000,
      0x01cea600, 0x00d80000, 0x0380e000, 0x004f0000, 0x00000000, 0x070e0000, 0x00ee0000, 0x03751c00);
    Four(h, block, 68, 0xd504902b, 0x60a9da62, 0x8b687819, 0x083e90c3, 0xf6226bbf, 0x76c0563b,
      0x989dd165, 0x8b2c7573, 0xae1b8e7b, 0x00000000, 0x070e0000, 0x00ee0000, 0x03751c00);
    FourWords(block, 56,
      0x0000e000, 0x0070ee00, 0x000ee000, 0x00369e00, 0x00e00000, 0x000ed600, 0x00000000, 0x00d80000, 0x0380e000,
      0x004f0000, 0x070e0000, 0x00ee0000, 0x03751c00, 0x0e000000, 0x00e0e000, 0x00363800, 0x1cee9000);
    Four(h, block, 72, 0xf6226bbf, 0x76c0563b, 0x989dd165, 0x8b2c7573, 0xae1b8e7b, 0xca1840de,
      0x16f3babb, 0xd28d83ad, 0x6bc02dfe, 0x0e000000, 0x00e0e000, 0x00363800, 0x1cee9000);
    FourWords(block, 60,
      0x00e00000, 0x000ed600, 0x0000e000, 0x01cea600, 0x00000000, 0x00d80000, 0x00000000, 0x070e0000, 0x00ee0000,
      0x03751c00, 0x00e0e000, 0x00363800, 0x1cee9000, 0x00000000, 0x0df09000, 0x3800e000, 0x04c77400);
    Four(h, block, 76, 0xae1b8e7b, 0xca1840de, 0x16f3babb, 0xd28d83ad, 0x6bc02dfe, 0xd3a6e275,
      0xda955482, 0x58c0aac0, 0x906fd62c, 0x00000000, 0x0df09000, 0x3800e000, 0x04c77400);
  }

  /** The second block of the longer message. */
  lemma {:induction false} SecondBlock(block: Block)
    requires WordsFrom(block, 0,
      0x00000000, 0x00000000, 0x00000000, 0x00000000, 0x00000000, 0x00000000, 0x00000000, 0x00000000,
      0x00000000, 0x00000000, 0x00000000, 0x00000000, 0x00000000, 0x00000000, 0x00000000, 0x000001c0)
    ensures Compress(State(0xf4286818, 0xc37b27ae, 0x0408f581, 0x84677148, 0x4a566572), block)
      == State(0x84983e44, 0x1c3bd26e, 0xbaae4aa1, 0xf95129e5, 0xe54670f1)
  {
    hide At, WordsFrom, Compress;
    var h := State(0xf4286818, 0xc37b27ae, 0x0408f581, 0x84677148, 0x4a566572);
    Begin(h, block, 0x295995c9, 0x119dc522, 0x1023d604, 0xc37b27ae, 0xf4286818);
    SecondSteps0To39(h, block);
    SecondSteps40To79(h, block);
    End(h, block, 0x6bc02dfe, 0xd3a6e275, 0xda955482, 0x58c0aac0, 0x906fd62c);
  }

  // ---------- The messages ----------

  /** The message behind its padding: one or two blocks. */
  lemma {:induction false} OneBlock(m: seq<byte>, block: Block)
    requires Padded(m, LengthBytes(|m|)) == block
    ensures Digest(m) == DigestBytes(Compress(INIT, block))
  {
    hide Compress, DigestBytes, LengthBytes, Padded;
    var nothing: seq<byte> := [];
    FoldNone(Compress, INIT);
    FoldBlock(Compress, INIT, nothing, block);
    assert nothing + block == block;
  }

  lemma {:induction false} TwoBlocks(m: seq<byte>, block: Block, block': Block)
    requires Padded(m, LengthBytes(|m|)) == block + block'
    ensures Digest(m) == DigestBytes(Compress(Compress(INIT, block), block'))
  {
    hide Compress, DigestBytes, LengthBytes, Padded;
    var nothing: seq<byte> := [];
    FoldNone(Compress, INIT);
    FoldBlock(Compress, INIT, nothing, block);
    FoldBlock(Compress, INIT, block, block');
    assert nothing + block == block;
  }

  lemma {:induction false} WordAt(block: Block, t: nat, a: byte, b: byte, c: byte, d: byte, w: bv32)
    requires t < 16 && block[4 * t] == a && block[4 * t + 1] == b && block[4 * t + 2] == c && block[4 * t + 3] == d
    requires Word(a, b, c, d) == w
    ensures WordIs(block, t, w)
  {
    hide Word;
  }

  lemma {:induction false} ZeroWord()
    ensures Word(0, 0, 0, 0) == 0
  {
  }

  lemma {:induction false} ShortLength(n: nat, hi: byte, lo: byte)
    requires 8 * n == 256 * hi + lo
    ensures LengthBytes(n) == [0, 0, 0, 0, 0, 0, hi, lo]
  {
    hide BigEndian;
    FourBytes(8 * n, 4);
    FourBytes(0, 0);
    NoBytes();
  }

  lemma {:induction false} NoBytes()
    ensures BigEndian(0, 0) == []
  {
  }

  lemma {:induction false} AbcPadded(m: seq<byte>) returns (block: Block)
    requires m == [97, 98, 99]
    ensures Padded(m, LengthBytes(3)) == block
    ensures WordsFrom(block, 0,
      0x61626380, 0x00000000, 0x00000000, 0x00000000, 0x00000000, 0x00000000, 0x00000000, 0x00000000,
      0x00000000, 0x00000000, 0x00000000, 0x00000000, 0x00000000, 0x00000000, 0x00000000, 0x00000018)
  {
    hide WordIs, Word, LengthBytes;
    ShortLength(3, 0, 24);
    block := Padded(m, LengthBytes(3));
    ZeroWord();
    FirstWord();
    WordAt(block, 0, 97, 98, 99, 0x80, 0x61626380);
    forall t | 1 <= t < 15 ensures WordIs(block, t, 0) { WordAt(block, t, 0, 0, 0, 0, 0); }
    WordAt(block, 15, 0, 0, 0, 24, 24);
  }

  lemma {:induction false} FirstWord()
    ensures Word(97, 98, 99, 0x80) == 0x61626380 && Word(0, 0, 0, 24) == 24
  {
  }

  /** The digest of "abc". */
  lemma {:induction false} AbcDigest()
    ensures Digest(Ascii("abc")) ==
      [0xa9, 0x99, 0x3e, 0x36, 0x47, 0x06, 0x81, 0x6a, 0xba, 0x3e,
       0x25, 0x71, 0x78, 0x50, 0xc2, 0x6c, 0x9c, 0xd0, 0xd8, 0x9d]
  {
    hide Compress, DigestBytes, LengthBytes, Padded, WordsFrom, Digest;
    var m := Ascii("abc");
    assert m == [97, 98, 99];
    var block := AbcPadded(m);
    OneBlock(m, block);
    AbcBlock(block);
    AbcBytes();
  }

  lemma {:induction false} AbcBytes()
    ensures DigestBytes(State(0xa9993e36, 0x4706816a, 0xba3e2571, 0x7850c26c, 0x9cd0d89d)) ==
      [0xa9, 0x99, 0x3e, 0x36, 0x47, 0x06, 0x81, 0x6a, 0xba, 0x3e,
       0x25, 0x71, 0x78, 0x50, 0xc2, 0x6c, 0x9c, 0xd0, 0xd8, 0x9d]
  {
  }

  /** The message of the second example. */
  const LONG := "abcdbcde" + "cdefdefg" + "efghfghi" + "ghijhijk" + "ijkljklm" + "klmnlmno" + "mnopnopq"

  /** Word `t` of the message has four letters in a row. */
  ghost predicate InRow(m: seq<byte>, t: nat)
    requires 4 * t + 4 <= |m|
  {
    m[4 * t] == 97 + t && m[4 * t + 1] == 98 + t && m[4 * t + 2] == 99 + t && m[4 * t + 3] == 100 + t
  }

  lemma {:induction false} FirstLetters(i: nat)
    requires i < 32
    ensures |LONG| == 56 && LONG[i] as int == 97 + i / 4 + i % 4
  {
    if i < 8 {
    } else if i < 16 {
    } else if i < 24 {
    } else {
    }
  }

  lemma {:induction false} LastLetters(i: nat)
    requires 32 <= i < 56
    ensures |LONG| == 56 && LONG[i] as int == 97 + i / 4 + i % 4
  {
    if i < 40 {
    } else if i < 48 {
    } else {
    }
  }

  lemma {:induction false} LongWords()
    ensures Word(97, 98, 99, 100) == 0x61626364 && Word(98, 99, 100, 101) == 0x62636465
      && Word(99, 100, 101, 102) == 0x63646566 && Word(100, 101, 102, 103) == 0x64656667
      && Word(101, 102, 103, 104) == 0x65666768 && Word(102, 103, 104, 105) == 0x66676869
      && Word(103, 104, 105, 106) == 0x6768696a && Word(104, 105, 106, 107) == 0x68696a6b
      && Word(105, 106, 107, 108) == 0x696a6b6c && Word(106, 107, 108, 109) == 0x6a6b6c6d
      && Word(107, 108, 109, 110) == 0x6b6c6d6e && Word(108, 109, 110, 111) == 0x6c6d6e6f
      && Word(109, 110, 111, 112) == 0x6d6e6f70 && Word(110, 111, 112, 113) == 0x6e6f7071
      && Word(0x80, 0, 0, 0) == 0x80000000 && Word(0, 0, 1, 0xc0) == 0x1c0
  {
  }

  lemma {:induction false} RowWord(block: Block, t: nat, w: bv32)
    requires t < 14 && InRow(block, t) && Word(97 + t, 98 + t, 99 + t, 100 + t) == w
    ensures WordIs(block, t, w)
  {
    hide Word, WordIs;
    WordAt(block, t, 97 + t, 98 + t, 99 + t, 100 + t, w);
  }

  lemma {:induction false} LongFirst(m: seq<byte>, block: Block)
    requires |m| == 56 && block == m + [0x80, 0, 0, 0, 0, 0, 0, 0] && forall t :: 0 <= t < 14 ==> InRow(m, t)
    ensures WordsFrom(block, 0,
      0x61626364, 0x62636465, 0x63646566, 0x64656667, 0x65666768, 0x66676869, 0x6768696a, 0x68696a6b,
      0x696a6b6c, 0x6a6b6c6d, 0x6b6c6d6e, 0x6c6d6e6f, 0x6d6e6f70, 0x6e6f7071, 0x80000000, 0x00000000)
  {
    hide WordIs, Word;
    LongWords();
    ZeroWord();
    forall t | 0 <= t < 14 ensures InRow(block, t) {
      assert InRow(m, t);
      assert block[4 * t] == m[4 * t] && block[4 * t + 1] == m[4 * t + 1];
      assert block[4 * t + 2] == m[4 * t + 2] && block[4 * t + 3] == m[4 * t + 3];
    }
    RowWord(block, 0, 0x61626364);
    RowWord(block, 1, 0x62636465);
    RowWord(block, 2, 0x63646566);
    RowWord(block, 3, 0x64656667);
    RowWord(block, 4, 0x65666768);
    RowWord(block, 5, 0x66676869);
    RowWord(block, 6, 0x6768696a);
    RowWord(block, 7, 0x68696a6b);
    RowWord(block, 8, 0x696a6b6c);
    RowWord(block, 9, 0x6a6b6c6d);
    RowWord(block, 10, 0x6b6c6d6e);
    RowWord(block, 11, 0x6c6d6e6f);
    RowWord(block, 12, 0x6d6e6f70);
    RowWord(block, 13, 0x6e6f7071);
    WordAt(block, 14, 0x80, 0, 0, 0, 0x80000000);
    WordAt(block, 15, 0, 0, 0, 0, 0);
  }

  lemma {:induction false} LongSecond(block: Block)
    requires block == seq(56, _ => 0 as byte) + [0, 0, 0, 0, 0, 0, 1, 0xc0]
    ensures WordsFrom(block, 0,
      0x00000000, 0x00000000, 0x00000000, 0x00000000, 0x00000000, 0x00000000, 0x00000000, 0x00000000,
      0x00000000, 0x00000000, 0x00000000, 0x00000000, 0x00000000, 0x00000000, 0x00000000, 0x000001c0)
  {
    hide WordIs, Word;
    LongWords();
    ZeroWord();
    forall t | 0 <= t < 15 ensures WordIs(block, t, 0) { WordAt(block, t, 0, 0, 0, 0, 0); }
    WordAt(block, 15, 0, 0, 1, 0xc0, 0x1c0);
  }

  lemma {:induction false} LongPadded(m: seq<byte>, block: Block, block': Block)
    requires |m| == 56 && block == m + [0x80, 0, 0, 0, 0, 0, 0, 0]
    requires block' == seq(56, _ => 0 as byte) + [0, 0, 0, 0, 0, 0, 1, 0xc0]
    ensures Padded(m, LengthBytes(56)) == block + block'
  {
    hide LengthBytes;
    ShortLength(56, 1, 0xc0);
  }

  /** Every character of it is a byte. */
  ghost predicate LongIsText() {
    |LONG| == 56 && forall i :: 0 <= i < 56 ==> LONG[i] as int < 128
  }

  lemma {:induction false} LongText()
    ensures LongIsText() && forall i :: 0 <= i < 56 ==> LONG[i] as int == 97 + i / 4 + i % 4
  {
    FirstLetters(0);
    forall i | 0 <= i < 56 ensures LONG[i] as int == 97 + i / 4 + i % 4 {
      if i < 32 { FirstLetters(i); } else { LastLetters(i); }
    }
  }

  lemma {:induction false} LongRows(m: seq<byte>)
    requires |m| == 56 && forall i :: 0 <= i < 56 ==> m[i] == 97 + i / 4 + i % 4
    ensures forall t :: 0 <= t < 14 ==> InRow(m, t)
  {
    forall t | 0 <= t < 14 ensures InRow(m, t) {
      assert (4 * t + 1) / 4 == t && (4 * t + 2) / 4 == t && (4 * t + 3) / 4 == t;
    }
  }

  /** The digest of the message of two blocks. */
  lemma {:induction false} LongDigest()
    ensures LongIsText() && Digest(Ascii(LONG)) ==
      [0x84, 0x98, 0x3e, 0x44, 0x1c, 0x3b, 0xd2, 0x6e, 0xba, 0xae,
       0x4a, 0xa1, 0xf9, 0x51, 0x29, 0xe5, 0xe5, 0x46, 0x70, 0xf1]
  {
    hide Compress, DigestBytes, LengthBytes, Padded, WordsFrom, Digest;
    LongText();
    var m := Ascii(LONG);
    LongRows(m);
    var block: Block := m + [0x80, 0, 0, 0, 0, 0, 0, 0];
    var block': Block := seq(56, _ => 0 as byte) + [0, 0, 0, 0, 0, 0, 1, 0xc0];
    LongPadded(m, block, block');
    LongFirst(m, block);
    LongSecond(block');
    TwoBlocks(m, block, block');
    FirstBlock(block);
    SecondBlock(block');
    LongBytes();
  }

  lemma {:induction false} LongBytes()
    ensures DigestBytes(State(0x84983e44, 0x1c3bd26e, 0xbaae4aa1, 0xf95129e5, 0xe54670f1)) ==
      [0x84, 0x98, 0x3e, 0x44, 0x1c, 0x3b, 0xd2, 0x6e, 0xba, 0xae,
       0x4a, 0xa1, 0xf9, 0x51, 0x29, 0xe5, 0xe5, 0x46, 0x70, 0xf1]
  {
  }
}
