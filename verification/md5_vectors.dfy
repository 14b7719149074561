/** A test digest of RFC 1321 for MD5, from the text of the standard, four steps at a time. */
module Md5Vectors {
  import opened BitLaws
  import opened Bytes
  import opened Blocks
  import opened Md5

  /** RFC 1321 section 3.3: the initial state, low-order bytes first. */
  lemma {:induction false} InitialBytes()
    ensures DigestBytes(INIT) ==
      [0x01, 0x23, 0x45, 0x67, 0x89, 0xab, 0xcd, 0xef, 0xfe, 0xdc, 0xba, 0x98, 0x76, 0x54, 0x32, 0x10]
  {
  }

  // ---------- Steps on given words ----------

  /** The registers after `n` steps, by age: each step makes a new one out of the last four. */
  ghost predicate At(h: State, block: Block, n: nat, x0: bv32, x1: bv32, x2: bv32, x3: bv32)
    requires n <= 64
  {
    Steps(h, block, n) == State(x0, x3, x2, x1)
  }

  ghost predicate WordIs(block: Block, k: nat, w: bv32) {
    k < 16 && Word(block, k) == w
  }

  lemma {:induction false} One(h: State, block: Block, n: nat, k: nat, t: bv32, s: nat, x0: bv32, x1: bv32, x2: bv32,
                               x3: bv32, w: bv32, x4: bv32)
    requires n < 64 && At(h, block, n, x0, x1, x2, x3) && Row(n, k, t, s) && WordIs(block, k, w) && 0 < s < 32
    requires Plus(x3, Rotl(Sum4(x0, Func(n, x3, x2, x1), w, t), s)) == x4
    ensures At(h, block, n + 1, x1, x2, x3, x4)
  {
    hide Func, Index, T, Shift, Rotl, Word, Plus, Sum4;
  }

  // Steps 1 to 16: their four rotations, and the register that a step with each of them makes.

  function Turn7(y: bv32): bv32 { (y << 7) | (y >> 25) }

  function Turn12(y: bv32): bv32 { (y << 12) | (y >> 20) }

  function Turn17(y: bv32): bv32 { (y << 17) | (y >> 15) }

  function Turn22(y: bv32): bv32 { (y << 22) | (y >> 10) }

  lemma {:induction false} FirstTurns(y: bv32)
    ensures Rotl(y, 7) == Turn7(y) && Rotl(y, 12) == Turn12(y) && Rotl(y, 17) == Turn17(y) && Rotl(y, 22) == Turn22(y)
  {
  }

  function First0(n: nat, x0: bv32, x1: bv32, x2: bv32, x3: bv32, w: bv32, t: bv32): bv32 {
    Plus(x3, Turn7(Sum4(x0, Func(n, x3, x2, x1), w, t)))
  }

  function First1(n: nat, x0: bv32, x1: bv32, x2: bv32, x3: bv32, w: bv32, t: bv32): bv32 {
    Plus(x3, Turn12(Sum4(x0, Func(n, x3, x2, x1), w, t)))
  }

  function First2(n: nat, x0: bv32, x1: bv32, x2: bv32, x3: bv32, w: bv32, t: bv32): bv32 {
    Plus(x3, Turn17(Sum4(x0, Func(n, x3, x2, x1), w, t)))
  }

  function First3(n: nat, x0: bv32, x1: bv32, x2: bv32, x3: bv32, w: bv32, t: bv32): bv32 {
    Plus(x3, Turn22(Sum4(x0, Func(n, x3, x2, x1), w, t)))
  }

  lemma {:induction false} FirstFour(
      h: State, block: Block, n: nat, x0: bv32, x1: bv32, x2: bv32, x3: bv32, x4: bv32, x5: bv32, x6: bv32, x7: bv32,
      k0: nat, w0: bv32, t0: bv32, k1: nat, w1: bv32, t1: bv32, k2: nat, w2: bv32, t2: bv32, k3: nat, w3: bv32,
      t3: bv32)
    requires n + 4 <= 64 && At(h, block, n, x0, x1, x2, x3)
    requires Row(n, k0, t0, 7) && Row(n + 1, k1, t1, 12) && Row(n + 2, k2, t2, 17) && Row(n + 3, k3, t3, 22)
    requires WordIs(block, k0, w0) && WordIs(block, k1, w1) && WordIs(block, k2, w2) && WordIs(block, k3, w3)
    requires First0(n, x0, x1, x2, x3, w0, t0) == x4 && First1(n + 1, x1, x2, x3, x4, w1, t1) == x5
    requires First2(n + 2, x2, x3, x4, x5, w2, t2) == x6 && First3(n + 3, x3, x4, x5, x6, w3, t3) == x7
    ensures At(h, block, n + 4, x4, x5, x6, x7)
  {
    hide At, WordIs, Row, Plus, Rotl, Sum4, Func, Turn7, Turn12, Turn17, Turn22;
    FirstTurns(Sum4(x0, Func(n, x3, x2, x1), w0, t0));
    One(h, block, n, k0, t0, 7, x0, x1, x2, x3, w0, x4);
    FirstTurns(Sum4(x1, Func(n + 1, x4, x3, x2), w1, t1));
    One(h, block, n + 1, k1, t1, 12, x1, x2, x3, x4, w1, x5);
    FirstTurns(Sum4(x2, Func(n + 2, x5, x4, x3), w2, t2));
    One(h, block, n + 2, k2, t2, 17, x2, x3, x4, x5, w2, x6);
    FirstTurns(Sum4(x3, Func(n + 3, x6, x5, x4), w3, t3));
    One(h, block, n + 3, k3, t3, 22, x3, x4, x5, x6, w3, x7);
  }

  // Steps 17 to 32: their four rotations, and the register that a step with each of them makes.

  function Turn5(y: bv32): bv32 { (y << 5) | (y >> 27) }

  function Turn9(y: bv32): bv32 { (y << 9) | (y >> 23) }

  function Turn14(y: bv32): bv32 { (y << 14) | (y >> 18) }

  function Turn20(y: bv32): bv32 { (y << 20) | (y >> 12) }

  lemma {:induction false} SecondTurns(y: bv32)
    ensures Rotl(y, 5) == Turn5(y) && Rotl(y, 9) == Turn9(y) && Rotl(y, 14) == Turn14(y) && Rotl(y, 20) == Turn20(y)
  {
  }

  function Second0(n: nat, x0: bv32, x1: bv32, x2: bv32, x3: bv32, w: bv32, t: bv32): bv32 {
    Plus(x3, Turn5(Sum4(x0, Func(n, x3, x2, x1), w, t)))
  }

  function Second1(n: nat, x0: bv32, x1: bv32, x2: bv32, x3: bv32, w: bv32, t: bv32): bv32 {
    Plus(x3, Turn9(Sum4(x0, Func(n, x3, x2, x1), w, t)))
  }

  function Second2(n: nat, x0: bv32, x1: bv32, x2: bv32, x3: bv32, w: bv32, t: bv32): bv32 {
    Plus(x3, Turn14(Sum4(x0, Func(n, x3, x2, x1), w, t)))
  }

  function Second3(n: nat, x0: bv32, x1: bv32, x2: bv32, x3: bv32, w: bv32, t: bv32): bv32 {
    Plus(x3, Turn20(Sum4(x0, Func(n, x3, x2, x1), w, t)))
  }

  lemma {:induction false} SecondFour(
      h: State, block: Block, n: nat, x0: bv32, x1: bv32, x2: bv32, x3: bv32, x4: bv32, x5: bv32, x6: bv32, x7: bv32,
      k0: nat, w0: bv32, t0: bv32, k1: nat, w1: bv32, t1: bv32, k2: nat, w2: bv32, t2: bv32, k3: nat, w3: bv32,
      t3: bv32)
    requires n + 4 <= 64 && At(h, block, n, x0, x1, x2, x3)
    requires Row(n, k0, t0, 5) && Row(n + 1, k1, t1, 9) && Row(n + 2, k2, t2, 14) && Row(n + 3, k3, t3, 20)
    requires WordIs(block, k0, w0) && WordIs(block, k1, w1) && WordIs(block, k2, w2) && WordIs(block, k3, w3)
    requires Second0(n, x0, x1, x2, x3, w0, t0) == x4 && Second1(n + 1, x1, x2, x3, x4, w1, t1) == x5
    requires Second2(n + 2, x2, x3, x4, x5, w2, t2) == x6 && Second3(n + 3, x3, x4, x5, x6, w3, t3) == x7
    ensures At(h, block, n + 4, x4, x5, x6, x7)
  {
    hide At, WordIs, Row, Plus, Rotl, Sum4, Func, Turn5, Turn9, Turn14, Turn20;
    SecondTurns(Sum4(x0, Func(n, x3, x2, x1), w0, t0));
    One(h, block, n, k0, t0, 5, x0, x1, x2, x3, w0, x4);
    SecondTurns(Sum4(x1, Func(n + 1, x4, x3, x2), w1, t1));
    One(h, block, n + 1, k1, t1, 9, x1, x2, x3, x4, w1, x5);
    SecondTurns(Sum4(x2, Func(n + 2, x5, x4, x3), w2, t2));
    One(h, block, n + 2, k2, t2, 14, x2, x3, x4, x5, w2, x6);
    SecondTurns(Sum4(x3, Func(n + 3, x6, x5, x4), w3, t3));
    One(h, block, n + 3, k3, t3, 20, x3, x4, x5, x6, w3, x7);
  }

  // Steps 33 to 48: their four rotations, and the register that a step with each of them makes.

  function Turn4(y: bv32): bv32 { (y << 4) | (y >> 28) }

  function Turn11(y: bv32): bv32 { (y << 11) | (y >> 21) }

  function Turn16(y: bv32): bv32 { (y << 16) | (y >> 16) }

  function Turn23(y: bv32): bv32 { (y << 23) | (y >> 9) }

  lemma {:induction false} ThirdTurns(y: bv32)
    ensures Rotl(y, 4) == Turn4(y) && Rotl(y, 11) == Turn11(y) && Rotl(y, 16) == Turn16(y) && Rotl(y, 23) == Turn23(y)
  {
  }

  function Third0(n: nat, x0: bv32, x1: bv32, x2: bv32, x3: bv32, w: bv32, t: bv32): bv32 {
    Plus(x3, Turn4(Sum4(x0, Func(n, x3, x2, x1), w, t)))
  }

  function Third1(n: nat, x0: bv32, x1: bv32, x2: bv32, x3: bv32, w: bv32, t: bv32): bv32 {
    Plus(x3, Turn11(Sum4(x0, Func(n, x3, x2, x1), w, t)))
  }

  function Third2(n: nat, x0: bv32, x1: bv32, x2: bv32, x3: bv32, w: bv32, t: bv32): bv32 {
    Plus(x3, Turn16(Sum4(x0, Func(n, x3, x2, x1), w, t)))
  }

  function Third3(n: nat, x0: bv32, x1: bv32, x2: bv32, x3: bv32, w: bv32, t: bv32): bv32 {
    Plus(x3, Turn23(Sum4(x0, Func(n, x3, x2, x1), w, t)))
  }

  lemma {:induction false} ThirdFour(
      h: State, block: Block, n: nat, x0: bv32, x1: bv32, x2: bv32, x3: bv32, x4: bv32, x5: bv32, x6: bv32, x7: bv32,
      k0: nat, w0: bv32, t0: bv32, k1: nat, w1: bv32, t1: bv32, k2: nat, w2: bv32, t2: bv32, k3: nat, w3: bv32,
      t3: bv32)
    requires n + 4 <= 64 && At(h, block, n, x0, x1, x2, x3)
    requires Row(n, k0, t0, 4) && Row(n + 1, k1, t1, 11) && Row(n + 2, k2, t2, 16) && Row(n + 3, k3, t3, 23)
    requires WordIs(block, k0, w0) && WordIs(block, k1, w1) && WordIs(block, k2, w2) && WordIs(block, k3, w3)
    requires Third0(n, x0, x1, x2, x3, w0, t0) == x4 && Third1(n + 1, x1, x2, x3, x4, w1, t1) == x5
    requires Third2(n + 2, x2, x3, x4, x5, w2, t2) == x6 && Third3(n + 3, x3, x4, x5, x6, w3, t3) == x7
    ensures At(h, block, n + 4, x4, x5, x6, x7)
  {
    hide At, WordIs, Row, Plus, Rotl, Sum4, Func, Turn4, Turn11, Turn16, Turn23;
    ThirdTurns(Sum4(x0, Func(n, x3, x2, x1), w0, t0));
    One(h, block, n, k0, t0, 4, x0, x1, x2, x3, w0, x4);
    ThirdTurns(Sum4(x1, Func(n + 1, x4, x3, x2), w1, t1));
    One(h, block, n + 1, k1, t1, 11, x1, x2, x3, x4, w1, x5);
    ThirdTurns(Sum4(x2, Func(n + 2, x5, x4, x3), w2, t2));
    One(h, block, n + 2, k2, t2, 16, x2, x3, x4, x5, w2, x6);
    ThirdTurns(Sum4(x3, Func(n + 3, x6, x5, x4), w3, t3));
    One(h, block, n + 3, k3, t3, 23, x3, x4, x5, x6, w3, x7);
  }

  // Steps 49 to 64: their four rotations, and the register that a step with each of them makes.

  function Turn6(y: bv32): bv32 { (y << 6) | (y >> 26) }

  function Turn10(y: bv32): bv32 { (y << 10) | (y >> 22) }

  function Turn15(y: bv32): bv32 { (y << 15) | (y >> 17) }

  function Turn21(y: bv32): bv32 { (y << 21) | (y >> 11) }

  lemma {:induction false} FourthTurns(y: bv32)
    ensures Rotl(y, 6) == Turn6(y) && Rotl(y, 10) == Turn10(y) && Rotl(y, 15) == Turn15(y) && Rotl(y, 21) == Turn21(y)
  {
  }

  function Fourth0(n: nat, x0: bv32, x1: bv32, x2: bv32, x3: bv32, w: bv32, t: bv32): bv32 {
    Plus(x3, Turn6(Sum4(x0, Func(n, x3, x2, x1), w, t)))
  }

  function Fourth1(n: nat, x0: bv32, x1: bv32, x2: bv32, x3: bv32, w: bv32, t: bv32): bv32 {
    Plus(x3, Turn10(Sum4(x0, Func(n, x3, x2, x1), w, t)))
  }

  function Fourth2(n: nat, x0: bv32, x1: bv32, x2: bv32, x3: bv32, w: bv32, t: bv32): bv32 {
    Plus(x3, Turn15(Sum4(x0, Func(n, x3, x2, x1), w, t)))
  }

  function Fourth3(n: nat, x0: bv32, x1: bv32, x2: bv32, x3: bv32, w: bv32, t: bv32): bv32 {
    Plus(x3, Turn21(Sum4(x0, Func(n, x3, x2, x1), w, t)))
  }

  lemma {:induction false} FourthFour(
      h: State, block: Block, n: nat, x0: bv32, x1: bv32, x2: bv32, x3: bv32, x4: bv32, x5: bv32, x6: bv32, x7: bv32,
      k0: nat, w0: bv32, t0: bv32, k1: nat, w1: bv32, t1: bv32, k2: nat, w2: bv32, t2: bv32, k3: nat, w3: bv32,
      t3: bv32)
    requires n + 4 <= 64 && At(h, block, n, x0, x1, x2, x3)
    requires Row(n, k0, t0, 6) && Row(n + 1, k1, t1, 10) && Row(n + 2, k2, t2, 15) && Row(n + 3, k3, t3, 21)
    requires WordIs(block, k0, w0) && WordIs(block, k1, w1) && WordIs(block, k2, w2) && WordIs(block, k3, w3)
    requires Fourth0(n, x0, x1, x2, x3, w0, t0) == x4 && Fourth1(n + 1, x1, x2, x3, x4, w1, t1) == x5
    requires Fourth2(n + 2, x2, x3, x4, x5, w2, t2) == x6 && Fourth3(n + 3, x3, x4, x5, x6, w3, t3) == x7
    ensures At(h, block, n + 4, x4, x5, x6, x7)
  {
    hide At, WordIs, Row, Plus, Rotl, Sum4, Func, Turn6, Turn10, Turn15, Turn21;
    FourthTurns(Sum4(x0, Func(n, x3, x2, x1), w0, t0));
    One(h, block, n, k0, t0, 6, x0, x1, x2, x3, w0, x4);
    FourthTurns(Sum4(x1, Func(n + 1, x4, x3, x2), w1, t1));
    One(h, block, n + 1, k1, t1, 10, x1, x2, x3, x4, w1, x5);
    FourthTurns(Sum4(x2, Func(n + 2, x5, x4, x3), w2, t2));
    One(h, block, n + 2, k2, t2, 15, x2, x3, x4, x5, w2, x6);
    FourthTurns(Sum4(x3, Func(n + 3, x6, x5, x4), w3, t3));
    One(h, block, n + 3, k3, t3, 21, x3, x4, x5, x6, w3, x7);
  }

  // ---------- The block of "abc" ----------

  // Each call takes the last four registers, the next four, and for each of the four steps the number of its word, the
  // word and the constant.

  /** The block: 61 62 63 80 in its first word, the length in its fifteenth, and zeros. */
  ghost predicate AbcWords(block: Block) {
    WordIs(block, 0, 0x80636261) && WordIs(block, 14, 24) && forall k :: 0 < k < 16 && k != 14 ==> WordIs(block, k, 0)
  }

  lemma {:induction false} AbcFirstRound(h: State, block: Block)
    requires AbcWords(block) && At(h, block, 0, 0x67452301, 0x10325476, 0x98badcfe, 0xefcdab89)
    ensures At(h, block, 16, 0xdda9b9a6, 0xa1051895, 0xe396856b, 0x72aff2e0)
  {
    hide At, WordIs, Row;
    Rows0To7();
    Rows8To15();
    FirstFour(h, block, 0, 0x67452301, 0x10325476, 0x98badcfe, 0xefcdab89,
      0xd6d117b4, 0x344a8432, 0x2f6fbd72, 0x7ad956f2,
      0, 0x80636261, 0xd76aa478, 1, 0, 0xe8c7b756, 2, 0, 0x242070db, 3, 0, 0xc1bdceee);
    FirstFour(h, block, 4, 0xd6d117b4, 0x344a8432, 0x2f6fbd72, 0x7ad956f2,
      0xc73741ef, 0x8bac3051, 0x207dc67b, 0x928d99f6,
      4, 0, 0xf57c0faf, 5, 0, 0x4787c62a, 6, 0, 0xa8304613, 7, 0, 0xfd469501);
    FirstFour(h, block, 8, 0xc73741ef, 0x8bac3051, 0x207dc67b, 0x928d99f6,
      0x854b3712, 0x74e2f284, 0x3020401c, 0x5ed49596,
      8, 0, 0x698098d8, 9, 0, 0x8b44f7af, 10, 0, 0xffff5bb1, 11, 0, 0x895cd7be);
    FirstFour(h, block, 12, 0x854b3712, 0x74e2f284, 0x3020401c, 0x5ed49596,
      0xdda9b9a6, 0xa1051895, 0xe396856b, 0x72aff2e0,
      12, 0, 0x6b901122, 13, 0, 0xfd987193, 14, 0x00000018, 0xa679438e, 15, 0, 0x49b40821);
  }

  lemma {:induction false} AbcSecondRound(h: State, block: Block)
    requires AbcWords(block) && At(h, block, 16, 0xdda9b9a6, 0xa1051895, 0xe396856b, 0x72aff2e0)
    ensures At(h, block, 32, 0x790a77fb, 0x9f47e4f8, 0xa62884aa, 0x726342d3)
  {
    hide At, WordIs, Row;
    Rows16To23();
    Rows24To31();
    SecondFour(h, block, 16, 0xdda9b9a6, 0xa1051895, 0xe396856b, 0x72aff2e0,
      0x3e9e9126, 0x4a1d804e, 0xe25e1652, 0xb5b204e4,
      1, 0, 0xf61e2562, 6, 0, 0xc040b340, 11, 0, 0x265e5a51, 0, 0x80636261, 0xe9b6c7aa);
    SecondFour(h, block, 20, 0x3e9e9126, 0x4a1d804e, 0xe25e1652, 0xb5b204e4,
      0x59a8ffda, 0x6d002f1e, 0xabfc7920, 0x47092c07,
      5, 0, 0xd62f105d, 10, 0, 0x02441453, 15, 0, 0xd8a1e681, 4, 0, 0xe7d3fbc8);
    SecondFour(h, block, 24, 0x59a8ffda, 0x6d002f1e, 0xabfc7920, 0x47092c07,
      0xb7f268cf, 0x09388eff, 0xfe1623b1, 0x786acb8f,
      9, 0, 0x21e1cde6, 14, 0x00000018, 0xc33707d6, 3, 0, 0xf4d50d87, 8, 0, 0x455a14ed);
    SecondFour(h, block, 28, 0xb7f268cf, 0x09388eff, 0xfe1623b1, 0x786acb8f,
      0x790a77fb, 0x9f47e4f8, 0xa62884aa, 0x726342d3,
      13, 0, 0xa9e3e905, 2, 0, 0xfcefa3f8, 7, 0, 0x676f02d9, 12, 0, 0x8d2a4c8a);
  }

  lemma {:induction false} AbcThirdRound(h: State, block: Block)
    requires AbcWords(block) && At(h, block, 32, 0x790a77fb, 0x9f47e4f8, 0xa62884aa, 0x726342d3)
    ensures At(h, block, 48, 0x7f2e507b, 0x99d9679d, 0x8fae6399, 0x7beb9700)
  {
    hide At, WordIs, Row;
    Rows32To39();
    Rows40To47();
    ThirdFour(h, block, 32, 0x790a77fb, 0x9f47e4f8, 0xa62884aa, 0x726342d3,
      0xb3707ebf, 0x60127b2e, 0x8d212ff5, 0x3b0875c7,
      5, 0, 0xfffa3942, 8, 0, 0x8771f681, 11, 0, 0x6d9d6122, 14, 0x00000018, 0xfde5380c);
    ThirdFour(h, block, 36, 0xb3707ebf, 0x60127b2e, 0x8d212ff5, 0x3b0875c7,
      0x21b117b9, 0x6e7429d5, 0x3575227e, 0x5a2f5ea5,
      1, 0, 0xa4beea44, 4, 0, 0x4bdecfa9, 7, 0, 0xf6bb4b60, 10, 0, 0xbebfbc70);
    ThirdFour(h, block, 40, 0x21b117b9, 0x6e7429d5, 0x3575227e, 0x5a2f5ea5,
      0x11de1779, 0xfadcaa38, 0x31c465ca, 0x4c6124f4,
      13, 0, 0x289b7ec6, 0, 0x80636261, 0xeaa127fa, 3, 0, 0xd4ef3085, 6, 0, 0x04881d05);
    ThirdFour(h, block, 44, 0x11de1779, 0xfadcaa38, 0x31c465ca, 0x4c6124f4,
      0x7f2e507b, 0x99d9679d, 0x8fae6399, 0x7beb9700,
      9, 0, 0xd9d4d039, 12, 0, 0xe6db99e5, 15, 0, 0x1fa27cf8, 2, 0, 0xc4ac5665);
  }

  lemma {:induction false} AbcFourthRound(h: State, block: Block)
    requires AbcWords(block) && At(h, block, 48, 0x7f2e507b, 0x99d9679d, 0x8fae6399, 0x7beb9700)
    ensures At(h, block, 64, 0x310ade8f, 0x624d8cb2, 0xe484b9d8, 0xc08226b3)
  {
    hide At, WordIs, Row;
    Rows48To55();
    Rows56To63();
    FourthFour(h, block, 48, 0x7f2e507b, 0x99d9679d, 0x8fae6399, 0x7beb9700,
      0x7b201df8, 0xf4e8e96e, 0xb298cefd, 0x8bf025c4,
      0, 0x80636261, 0xf4292244, 7, 0, 0x432aff97, 14, 0x00000018, 0xab9423a7, 5, 0, 0xfc93a039);
    FourthFour(h, block, 52, 0x7b201df8, 0xf4e8e96e, 0xb298cefd, 0x8bf025c4,
      0x06cc5e8a, 0x5b0d97aa, 0x7d632dd0, 0x3bfa2c27,
      12, 0, 0x655b59c3, 3, 0, 0x8f0ccc92, 10, 0, 0xffeff47d, 1, 0, 0x85845dd1);
    FourthFour(h, block, 56, 0x06cc5e8a, 0x5b0d97aa, 0x7d632dd0, 0x3bfa2c27,
      0x7f81cc35, 0x094454ab, 0x4f9dbe3f, 0x7327d604,
      8, 0, 0x6fa87e4f, 15, 0, 0xfe2ce6e0, 6, 0, 0xa3014314, 13, 0, 0x4e0811a1);
    FourthFour(h, block, 60, 0x7f81cc35, 0x094454ab, 0x4f9dbe3f, 0x7327d604,
      0x310ade8f, 0x624d8cb2, 0xe484b9d8, 0xc08226b3,
      4, 0, 0xf7537e82, 11, 0, 0xbd3af235, 2, 0, 0x2ad7d2bb, 9, 0, 0xeb86d391);
  }

  lemma {:induction false} Begin(h: State, block: Block)
    requires h == INIT
    ensures At(h, block, 0, 0x67452301, 0x10325476, 0x98badcfe, 0xefcdab89)
  {
  }

  lemma {:induction false} End(h: State, block: Block, x0: bv32, x1: bv32, x2: bv32, x3: bv32)
    requires At(h, block, 64, x0, x1, x2, x3)
    ensures Compress(h, block) == State(Plus(h.a, x0), Plus(h.b, x3), Plus(h.c, x2), Plus(h.d, x1))
  {
    hide Steps, Plus;
  }

  lemma {:induction false} AbcBlock(block: Block)
    requires AbcWords(block)
    ensures Compress(INIT, block) == State(0x98500190, 0xb04fd23c, 0x7d3f96d6, 0x727fe128)
  {
    hide At, AbcWords, Compress;
    Begin(INIT, block);
    AbcFirstRound(INIT, block);
    AbcSecondRound(INIT, block);
    AbcThirdRound(INIT, block);
    AbcFourthRound(INIT, block);
    End(INIT, block, 0x310ade8f, 0x624d8cb2, 0xe484b9d8, 0xc08226b3);
  }

  // ---------- The message ----------

  lemma {:induction false} WordAt(block: Block, k: nat, a: byte, b: byte, c: byte, d: byte, w: bv32)
    requires k < 16 && block[4 * k] == a && block[4 * k + 1] == b && block[4 * k + 2] == c && block[4 * k + 3] == d
    requires LittleWord(a, b, c, d) == w
    ensures WordIs(block, k, w)
  {
    hide LittleWord;
  }

  lemma {:induction false} SomeWords()
    ensures LittleWord(97, 98, 99, 0x80) == 0x80636261 && LittleWord(24, 0, 0, 0) == 24 && LittleWord(0, 0, 0, 0) == 0
  {
  }

  lemma {:induction false} AbcLength()
    ensures LengthBytes(3) == [24, 0, 0, 0, 0, 0, 0, 0]
  {
    hide LittleEndian;
    FourBytes(24, 4);
    FourBytes(0, 0);
    NoBytes();
  }

  lemma {:induction false} NoBytes()
    ensures LittleEndian(0, 0) == []
  {
  }

  lemma {:induction false} AbcPadded(m: seq<byte>) returns (block: Block)
    requires m == [97, 98, 99]
    ensures Padded(m, LengthBytes(3)) == block && AbcWords(block)
  {
    hide WordIs, LittleWord, LengthBytes;
    AbcLength();
    block := Padded(m, LengthBytes(3));
    SomeWords();
    WordAt(block, 0, 97, 98, 99, 0x80, 0x80636261);
    forall k | 0 < k < 16 && k != 14 ensures WordIs(block, k, 0) { WordAt(block, k, 0, 0, 0, 0, 0); }
    WordAt(block, 14, 24, 0, 0, 0, 24);
  }

  lemma {:induction false} OneBlock(m: seq<byte>, block: Block)
    requires Padded(m, LengthBytes(|m|)) == block
    ensures Digest(m) == DigestBytes(Compress(INIT, block))
  {
    hide Compress, DigestBytes, LengthBytes, Padded;
    var nothing: seq<byte> := [];
    FoldNone(Compress, INIT);
    FoldBlock(Compress, INIT, nothing, block);
    assert nothing + block == block;
  }

  lemma {:induction false} AbcBytes()
    ensures DigestBytes(State(0x98500190, 0xb04fd23c, 0x7d3f96d6, 0x727fe128)) ==
      [0x90, 0x01, 0x50, 0x98, 0x3c, 0xd2, 0x4f, 0xb0, 0xd6, 0x96, 0x3f, 0x7d, 0x28, 0xe1, 0x7f, 0x72]
  {
  }

  /** The digest of "abc". */
  lemma {:induction false} AbcDigest()
    ensures Digest(Ascii("abc")) ==
      [0x90, 0x01, 0x50, 0x98, 0x3c, 0xd2, 0x4f, 0xb0, 0xd6, 0x96, 0x3f, 0x7d, 0x28, 0xe1, 0x7f, 0x72]
  {
    hide Compress, DigestBytes, LengthBytes, Padded, AbcWords, Digest;
    var m := Ascii("abc");
    assert m == [97, 98, 99];
    var block := AbcPadded(m);
    OneBlock(m, block);
    AbcBlock(block);
    AbcBytes();
  }
}
