/** c/src/code/md5.c against RFC 1321. */
module Md5 {
  import opened BitLaws
  import opened Bytes
  import opened Blocks

  // ---------- The compression of RFC 1321 section 3.4 ----------

  /** The auxiliary function of step `n`. */
  function Func(n: nat, x: bv32, y: bv32, z: bv32): bv32 {
    if n < 16 then (x & y) | (!x & z)
    else if n < 32 then (x & z) | (y & !z)
    else if n < 48 then x ^ y ^ z
    else y ^ (x | !z)
  }

  /** The table T: the integer part of 4294967296 times abs(sin(i)), i in radians, for i from 1 to 64. */
  function T(n: nat): bv32
    requires n < 64
  {
    if n < 16 then FirstT(n) else if n < 32 then SecondT(n - 16)
    else if n < 48 then ThirdT(n - 32) else FourthT(n - 48)
  }

  function FirstT(n: nat): bv32 {
    match n
    case 0 => 0xd76aa478 case 1 => 0xe8c7b756 case 2 => 0x242070db case 3 => 0xc1bdceee
    case 4 => 0xf57c0faf case 5 => 0x4787c62a case 6 => 0xa8304613 case 7 => 0xfd469501
    case 8 => 0x698098d8 case 9 => 0x8b44f7af case 10 => 0xffff5bb1 case 11 => 0x895cd7be
    case 12 => 0x6b901122 case 13 => 0xfd987193 case 14 => 0xa679438e case _ => 0x49b40821
  }

  function SecondT(n: nat): bv32 {
    match n
    case 0 => 0xf61e2562 case 1 => 0xc040b340 case 2 => 0x265e5a51 case 3 => 0xe9b6c7aa
    case 4 => 0xd62f105d case 5 => 0x02441453 case 6 => 0xd8a1e681 case 7 => 0xe7d3fbc8
    case 8 => 0x21e1cde6 case 9 => 0xc33707d6 case 10 => 0xf4d50d87 case 11 => 0x455a14ed
    case 12 => 0xa9e3e905 case 13 => 0xfcefa3f8 case 14 => 0x676f02d9 case _ => 0x8d2a4c8a
  }

  function ThirdT(n: nat): bv32 {
    match n
    case 0 => 0xfffa3942 case 1 => 0x8771f681 case 2 => 0x6d9d6122 case 3 => 0xfde5380c
    case 4 => 0xa4beea44 case 5 => 0x4bdecfa9 case 6 => 0xf6bb4b60 case 7 => 0xbebfbc70
    case 8 => 0x289b7ec6 case 9 => 0xeaa127fa case 10 => 0xd4ef3085 case 11 => 0x04881d05
    case 12 => 0xd9d4d039 case 13 => 0xe6db99e5 case 14 => 0x1fa27cf8 case _ => 0xc4ac5665
  }

  function FourthT(n: nat): bv32 {
    match n
    case 0 => 0xf4292244 case 1 => 0x432aff97 case 2 => 0xab9423a7 case 3 => 0xfc93a039
    case 4 => 0x655b59c3 case 5 => 0x8f0ccc92 case 6 => 0xffeff47d case 7 => 0x85845dd1
    case 8 => 0x6fa87e4f case 9 => 0xfe2ce6e0 case 10 => 0xa3014314 case 11 => 0x4e0811a1
    case 12 => 0xf7537e82 case 13 => 0xbd3af235 case 14 => 0x2ad7d2bb case _ => 0xeb86d391
  }

  /** The word of the block that step `n` adds. */
  function Index(n: nat): (k: nat)
    ensures k < 16
  {
    if n < 16 then n % 16 else if n < 32 then (5 * n + 1) % 16 else if n < 48 then (3 * n + 5) % 16 else 7 * n % 16
  }

  /** The rotation of step `n`. */
  function Shift(n: nat): (s: nat)
    ensures 0 < s < 32
  {
    if n < 16 then [7, 12, 17, 22][n % 4]
    else if n < 32 then [5, 9, 14, 20][n % 4]
    else if n < 48 then [4, 11, 16, 23][n % 4]
    else [6, 10, 15, 21][n % 4]
  }

  function LittleWord(a: byte, b: byte, c: byte, d: byte): bv32 {
    (a as bv32) | ((b as bv32) << 8) | ((c as bv32) << 16) | ((d as bv32) << 24)
  }

  function Word(block: Block, k: nat): bv32
    requires k < 16
  {
    LittleWord(block[4 * k], block[4 * k + 1], block[4 * k + 2], block[4 * k + 3])
  }

  datatype State = State(a: bv32, b: bv32, c: bv32, d: bv32)

  function Sum4(a: bv32, f: bv32, x: bv32, t: bv32): bv32 { a + f + x + t }

  /** One operation; the registers change their roles. */
  function Op(v: State, n: nat, block: Block): State
    requires n < 64
  {
    var sum := Sum4(v.a, Func(n, v.b, v.c, v.d), Word(block, Index(n)), T(n));
    State(v.d, Plus(v.b, Rotl(sum, Shift(n))), v.b, v.c)
  }

  function Steps(h: State, block: Block, n: nat): State
    requires n <= 64
  {
    if n == 0 then h else Op(Steps(h, block, n - 1), n - 1, block)
  }

  /** The state after one block. */
  function Compress(h: State, block: Block): State {
    var v := Steps(h, block, 64);
    State(Plus(h.a, v.a), Plus(h.b, v.b), Plus(h.c, v.c), Plus(h.d, v.d))
  }

  lemma {:induction false} NoSteps(h: State, block: Block)
    ensures Steps(h, block, 0) == h
  {
  }

  // ---------- The steps of the program ----------

  /** The macros F, G, H and I. */
  function F(x: bv32, y: bv32, z: bv32): bv32 { z ^ (x & (y ^ z)) }

  function G(x: bv32, y: bv32, z: bv32): bv32 { y ^ (z & (x ^ y)) }

  function H(x: bv32, y: bv32, z: bv32): bv32 { x ^ y ^ z }

  function I(x: bv32, y: bv32, z: bv32): bv32 { y ^ (x | !z) }

  function Macro(n: nat, x: bv32, y: bv32, z: bv32): bv32 {
    if n < 16 then F(x, y, z) else if n < 32 then G(x, y, z) else if n < 48 then H(x, y, z) else I(x, y, z)
  }

  /** The optimised macros are the functions of the standard. */
  lemma {:induction false} MacroF(x: bv32, y: bv32, z: bv32)
    ensures F(x, y, z) == (x & y) | (!x & z)
  {
    ChoiceByOr(x, y, z);
  }

  lemma {:induction false} MacroG(x: bv32, y: bv32, z: bv32)
    ensures G(x, y, z) == (x & z) | (y & !z)
  {
    ChoiceByLast(x, y, z);
  }

  lemma {:induction false} MacroIsFunc(n: nat, x: bv32, y: bv32, z: bv32)
    ensures Macro(n, x, y, z) == Func(n, x, y, z)
  {
    hide F, G;
    MacroF(x, y, z);
    MacroG(x, y, z);
  }

  /** The macro STEP: the function, the word and the constant are added up before they are added to `a`. */
  function StepValue(f: bv32, a: bv32, b: bv32, x: bv32, t: bv32, s: nat): bv32
    requires 0 < s < 32
  {
    Plus(Rotl(AddInOrder(a, f, x, t), s), b)
  }

  function AddInOrder(a: bv32, f: bv32, x: bv32, t: bv32): bv32 { a + (f + x + t) }

  lemma {:induction false} SumsAgree(a: bv32, f: bv32, x: bv32, t: bv32)
    ensures AddInOrder(a, f, x, t) == Sum4(a, f, x, t)
  {
  }

  lemma {:induction false} PlusCommutes(x: bv32, y: bv32)
    ensures Plus(x, y) == Plus(y, x)
  {
  }

  /** The word, the constant and the rotation of step `n`. */
  predicate Row(n: nat, k: nat, t: bv32, s: nat)
    requires n < 64
  {
    k == Index(n) && t == T(n) && s == Shift(n)
  }

  lemma {:induction false} Rows0To7()
    ensures Row(0, 0, 0xd76aa478, 7) && Row(1, 1, 0xe8c7b756, 12)
    ensures Row(2, 2, 0x242070db, 17) && Row(3, 3, 0xc1bdceee, 22)
    ensures Row(4, 4, 0xf57c0faf, 7) && Row(5, 5, 0x4787c62a, 12)
    ensures Row(6, 6, 0xa8304613, 17) && Row(7, 7, 0xfd469501, 22)
  {
  }

  lemma {:induction false} Rows8To15()
    ensures Row(8, 8, 0x698098d8, 7) && Row(9, 9, 0x8b44f7af, 12)
    ensures Row(10, 10, 0xffff5bb1, 17) && Row(11, 11, 0x895cd7be, 22)
    ensures Row(12, 12, 0x6b901122, 7) && Row(13, 13, 0xfd987193, 12)
    ensures Row(14, 14, 0xa679438e, 17) && Row(15, 15, 0x49b40821, 22)
  {
  }

  lemma {:induction false} Rows16To23()
    ensures Row(16, 1, 0xf61e2562, 5) && Row(17, 6, 0xc040b340, 9)
    ensures Row(18, 11, 0x265e5a51, 14) && Row(19, 0, 0xe9b6c7aa, 20)
    ensures Row(20, 5, 0xd62f105d, 5) && Row(21, 10, 0x02441453, 9)
    ensures Row(22, 15, 0xd8a1e681, 14) && Row(23, 4, 0xe7d3fbc8, 20)
  {
  }

  lemma {:induction false} Rows24To31()
    ensures Row(24, 9, 0x21e1cde6, 5) && Row(25, 14, 0xc33707d6, 9)
    ensures Row(26, 3, 0xf4d50d87, 14) && Row(27, 8, 0x455a14ed, 20)
    ensures Row(28, 13, 0xa9e3e905, 5) && Row(29, 2, 0xfcefa3f8, 9)
    ensures Row(30, 7, 0x676f02d9, 14) && Row(31, 12, 0x8d2a4c8a, 20)
  {
  }

  lemma {:induction false} Rows32To39()
    ensures Row(32, 5, 0xfffa3942, 4) && Row(33, 8, 0x8771f681, 11)
    ensures Row(34, 11, 0x6d9d6122, 16) && Row(35, 14, 0xfde5380c, 23)
    ensures Row(36, 1, 0xa4beea44, 4) && Row(37, 4, 0x4bdecfa9, 11)
    ensures Row(38, 7, 0xf6bb4b60, 16) && Row(39, 10, 0xbebfbc70, 23)
  {
  }

  lemma {:induction false} Rows40To47()
    ensures Row(40, 13, 0x289b7ec6, 4) && Row(41, 0, 0xeaa127fa, 11)
    ensures Row(42, 3, 0xd4ef3085, 16) && Row(43, 6, 0x04881d05, 23)
    ensures Row(44, 9, 0xd9d4d039, 4) && Row(45, 12, 0xe6db99e5, 11)
    ensures Row(46, 15, 0x1fa27cf8, 16) && Row(47, 2, 0xc4ac5665, 23)
  {
  }

  lemma {:induction false} Rows48To55()
    ensures Row(48, 0, 0xf4292244, 6) && Row(49, 7, 0x432aff97, 10)
    ensures Row(50, 14, 0xab9423a7, 15) && Row(51, 5, 0xfc93a039, 21)
    ensures Row(52, 12, 0x655b59c3, 6) && Row(53, 3, 0x8f0ccc92, 10)
    ensures Row(54, 10, 0xffeff47d, 15) && Row(55, 1, 0x85845dd1, 21)
  {
  }

  lemma {:induction false} Rows56To63()
    ensures Row(56, 8, 0x6fa87e4f, 6) && Row(57, 15, 0xfe2ce6e0, 10)
    ensures Row(58, 6, 0xa3014314, 15) && Row(59, 13, 0x4e0811a1, 21)
    ensures Row(60, 4, 0xf7537e82, 6) && Row(61, 11, 0xbd3af235, 10)
    ensures Row(62, 2, 0x2ad7d2bb, 15) && Row(63, 9, 0xeb86d391, 21)
  {
  }

  /** STEP, in the role that the written-out step number `n` gives to its operands. */
  method Step(f: bv32, a: bv32, b: bv32, c: bv32, d: bv32, k: nat, t: bv32, s: nat, ghost n: nat, ptr: Block,
              ghost h: State)
    returns (r: bv32)
    requires n < 64 && State(a, b, c, d) == Steps(h, ptr, n)
    requires f == Macro(n, b, c, d) && Row(n, k, t, s)
    ensures State(d, r, b, c) == Steps(h, ptr, n + 1)
  {
    hide Macro, Func, Index, T, Shift, Rotl, Word, Plus, AddInOrder, Sum4;
    r := StepValue(f, a, b, Word(ptr, k), t, s);
    MacroIsFunc(n, b, c, d);
    SumsAgree(a, f, Word(ptr, k), t);
    PlusCommutes(b, Rotl(Sum4(a, f, Word(ptr, k), t), s));
  }

  // The 64 written-out steps, eight at a time.

  method Steps0To7(v: State, ptr: Block, ghost h: State) returns (v': State)
    requires v == Steps(h, ptr, 0)
    ensures v' == Steps(h, ptr, 8)
  {
    hide Steps, F, G, H, I, Func, Op, Word, Row;
    Rows0To7();
    var State(a, b, c, d) := v;
    a := Step(F(b, c, d), a, b, c, d, 0, 0xd76aa478, 7, 0, ptr, h);
    d := Step(F(a, b, c), d, a, b, c, 1, 0xe8c7b756, 12, 1, ptr, h);
    c := Step(F(d, a, b), c, d, a, b, 2, 0x242070db, 17, 2, ptr, h);
    b := Step(F(c, d, a), b, c, d, a, 3, 0xc1bdceee, 22, 3, ptr, h);
    a := Step(F(b, c, d), a, b, c, d, 4, 0xf57c0faf, 7, 4, ptr, h);
    d := Step(F(a, b, c), d, a, b, c, 5, 0x4787c62a, 12, 5, ptr, h);
    c := Step(F(d, a, b), c, d, a, b, 6, 0xa8304613, 17, 6, ptr, h);
    b := Step(F(c, d, a), b, c, d, a, 7, 0xfd469501, 22, 7, ptr, h);
    v' := State(a, b, c, d);
  }

  method Steps8To15(v: State, ptr: Block, ghost h: State) returns (v': State)
    requires v == Steps(h, ptr, 8)
    ensures v' == Steps(h, ptr, 16)
  {
    hide Steps, F, G, H, I, Func, Op, Word, Row;
    Rows8To15();
    var State(a, b, c, d) := v;
    a := Step(F(b, c, d), a, b, c, d, 8, 0x698098d8, 7, 8, ptr, h);
    d := Step(F(a, b, c), d, a, b, c, 9, 0x8b44f7af, 12, 9, ptr, h);
    c := Step(F(d, a, b), c, d, a, b, 10, 0xffff5bb1, 17, 10, ptr, h);
    b := Step(F(c, d, a), b, c, d, a, 11, 0x895cd7be, 22, 11, ptr, h);
    a := Step(F(b, c, d), a, b, c, d, 12, 0x6b901122, 7, 12, ptr, h);
    d := Step(F(a, b, c), d, a, b, c, 13, 0xfd987193, 12, 13, ptr, h);
    c := Step(F(d, a, b), c, d, a, b, 14, 0xa679438e, 17, 14, ptr, h);
    b := Step(F(c, d, a), b, c, d, a, 15, 0x49b40821, 22, 15, ptr, h);
    v' := State(a, b, c, d);
  }

  method Steps16To23(v: State, ptr: Block, ghost h: State) returns (v': State)
    requires v == Steps(h, ptr, 16)
    ensures v' == Steps(h, ptr, 24)
  {
    hide Steps, F, G, H, I, Func, Op, Word, Row;
    Rows16To23();
    var State(a, b, c, d) := v;
    a := Step(G(b, c, d), a, b, c, d, 1, 0xf61e2562, 5, 16, ptr, h);
    d := Step(G(a, b, c), d, a, b, c, 6, 0xc040b340, 9, 17, ptr, h);
    c := Step(G(d, a, b), c, d, a, b, 11, 0x265e5a51, 14, 18, ptr, h);
    b := Step(G(c, d, a), b, c, d, a, 0, 0xe9b6c7aa, 20, 19, ptr, h);
    a := Step(G(b, c, d), a, b, c, d, 5, 0xd62f105d, 5, 20, ptr, h);
    d := Step(G(a, b, c), d, a, b, c, 10, 0x02441453, 9, 21, ptr, h);
    c := Step(G(d, a, b), c, d, a, b, 15, 0xd8a1e681, 14, 22, ptr, h);
    b := Step(G(c, d, a), b, c, d, a, 4, 0xe7d3fbc8, 20, 23, ptr, h);
    v' := State(a, b, c, d);
  }

  method Steps24To31(v: State, ptr: Block, ghost h: State) returns (v': State)
    requires v == Steps(h, ptr, 24)
    ensures v' == Steps(h, ptr, 32)
  {
    hide Steps, F, G, H, I, Func, Op, Word, Row;
    Rows24To31();
    var State(a, b, c, d) := v;
    a := Step(G(b, c, d), a, b, c, d, 9, 0x21e1cde6, 5, 24, ptr, h);
    d := Step(G(a, b, c), d, a, b, c, 14, 0xc33707d6, 9, 25, ptr, h);
    c := Step(G(d, a, b), c, d, a, b, 3, 0xf4d50d87, 14, 26, ptr, h);
    b := Step(G(c, d, a), b, c, d, a, 8, 0x455a14ed, 20, 27, ptr, h);
    a := Step(G(b, c, d), a, b, c, d, 13, 0xa9e3e905, 5, 28, ptr, h);
    d := Step(G(a, b, c), d, a, b, c, 2, 0xfcefa3f8, 9, 29, ptr, h);
    c := Step(G(d, a, b), c, d, a, b, 7, 0x676f02d9, 14, 30, ptr, h);
    b := Step(G(c, d, a), b, c, d, a, 12, 0x8d2a4c8a, 20, 31, ptr, h);
    v' := State(a, b, c, d);
  }

  method Steps32To39(v: State, ptr: Block, ghost h: State) returns (v': State)
    requires v == Steps(h, ptr, 32)
    ensures v' == Steps(h, ptr, 40)
  {
    hide Steps, F, G, H, I, Func, Op, Word, Row;
    Rows32To39();
    var State(a, b, c, d) := v;
    a := Step(H(b, c, d), a, b, c, d, 5, 0xfffa3942, 4, 32, ptr, h);
    d := Step(H(a, b, c), d, a, b, c, 8, 0x8771f681, 11, 33, ptr, h);
    c := Step(H(d, a, b), c, d, a, b, 11, 0x6d9d6122, 16, 34, ptr, h);
    b := Step(H(c, d, a), b, c, d, a, 14, 0xfde5380c, 23, 35, ptr, h);
    a := Step(H(b, c, d), a, b, c, d, 1, 0xa4beea44, 4, 36, ptr, h);
    d := Step(H(a, b, c), d, a, b, c, 4, 0x4bdecfa9, 11, 37, ptr, h);
    c := Step(H(d, a, b), c, d, a, b, 7, 0xf6bb4b60, 16, 38, ptr, h);
    b := Step(H(c, d, a), b, c, d, a, 10, 0xbebfbc70, 23, 39, ptr, h);
    v' := State(a, b, c, d);
  }

  method Steps40To47(v: State, ptr: Block, ghost h: State) returns (v': State)
    requires v == Steps(h, ptr, 40)
    ensures v' == Steps(h, ptr, 48)
  {
    hide Steps, F, G, H, I, Func, Op, Word, Row;
    Rows40To47();
    var State(a, b, c, d) := v;
    a := Step(H(b, c, d), a, b, c, d, 13, 0x289b7ec6, 4, 40, ptr, h);
    d := Step(H(a, b, c), d, a, b, c, 0, 0xeaa127fa, 11, 41, ptr, h);
    c := Step(H(d, a, b), c, d, a, b, 3, 0xd4ef3085, 16, 42, ptr, h);
    b := Step(H(c, d, a), b, c, d, a, 6, 0x04881d05, 23, 43, ptr, h);
    a := Step(H(b, c, d), a, b, c, d, 9, 0xd9d4d039, 4, 44, ptr, h);
    d := Step(H(a, b, c), d, a, b, c, 12, 0xe6db99e5, 11, 45, ptr, h);
    c := Step(H(d, a, b), c, d, a, b, 15, 0x1fa27cf8, 16, 46, ptr, h);
    b := Step(H(c, d, a), b, c, d, a, 2, 0xc4ac5665, 23, 47, ptr, h);
    v' := State(a, b, c, d);
  }

  method Steps48To55(v: State, ptr: Block, ghost h: State) returns (v': State)
    requires v == Steps(h, ptr, 48)
    ensures v' == Steps(h, ptr, 56)
  {
    hide Steps, F, G, H, I, Func, Op, Word, Row;
    Rows48To55();
    var State(a, b, c, d) := v;
    a := Step(I(b, c, d), a, b, c, d, 0, 0xf4292244, 6, 48, ptr, h);
    d := Step(I(a, b, c), d, a, b, c, 7, 0x432aff97, 10, 49, ptr, h);
    c := Step(I(d, a, b), c, d, a, b, 14, 0xab9423a7, 15, 50, ptr, h);
    b := Step(I(c, d, a), b, c, d, a, 5, 0xfc93a039, 21, 51, ptr, h);
    a := Step(I(b, c, d), a, b, c, d, 12, 0x655b59c3, 6, 52, ptr, h);
    d := Step(I(a, b, c), d, a, b, c, 3, 0x8f0ccc92, 10, 53, ptr, h);
    c := Step(I(d, a, b), c, d, a, b, 10, 0xffeff47d, 15, 54, ptr, h);
    b := Step(I(c, d, a), b, c, d, a, 1, 0x85845dd1, 21, 55, ptr, h);
    v' := State(a, b, c, d);
  }

  method Steps56To63(v: State, ptr: Block, ghost h: State) returns (v': State)
    requires v == Steps(h, ptr, 56)
    ensures v' == Steps(h, ptr, 64)
  {
    hide Steps, F, G, H, I, Func, Op, Word, Row;
    Rows56To63();
    var State(a, b, c, d) := v;
    a := Step(I(b, c, d), a, b, c, d, 8, 0x6fa87e4f, 6, 56, ptr, h);
    d := Step(I(a, b, c), d, a, b, c, 15, 0xfe2ce6e0, 10, 57, ptr, h);
    c := Step(I(d, a, b), c, d, a, b, 6, 0xa3014314, 15, 58, ptr, h);
    b := Step(I(c, d, a), b, c, d, a, 13, 0x4e0811a1, 21, 59, ptr, h);
    a := Step(I(b, c, d), a, b, c, d, 4, 0xf7537e82, 6, 60, ptr, h);
    d := Step(I(a, b, c), d, a, b, c, 11, 0xbd3af235, 10, 61, ptr, h);
    c := Step(I(d, a, b), c, d, a, b, 2, 0x2ad7d2bb, 15, 62, ptr, h);
    b := Step(I(c, d, a), b, c, d, a, 9, 0xeb86d391, 21, 63, ptr, h);
    v' := State(a, b, c, d);
  }

  // ---------- The context ----------

  /** S_MD5Init, RFC 1321 section 3.3 */
  const INIT := State(0x67452301, 0xefcdab89, 0x98badcfe, 0x10325476)

  function Absorbed(m: seq<byte>): State {
    Fold(Compress, INIT, m)
  }

  const TWO_29: nat := 0x2000_0000

  /** The two words of the byte counter: 29 and 32 bits. */
  function Low(n: nat): (c: nat)
    ensures c < TWO_29
  {
    n % TWO_29
  }

  function High(n: nat): (c: nat)
    ensures c < TWO_32
  {
    n / TWO_29 % TWO_32
  }

  /** Counting `size` more bytes, with the carry. */
  lemma {:induction false} CountAdds(n: nat, size: nat)
    ensures
      var lo := (Low(n) + size) % TWO_29;
      lo == Low(n + size) &&
      Wrap32(Wrap32(High(n) + if lo < Low(n) then 1 else 0) + size / TWO_29) == High(n + size)
  {
    var low, add := n % TWO_29, size % TWO_29;
    var carry := if low + add >= TWO_29 then 1 else 0;
    var x, y := n / TWO_29, size / TWO_29;
    assert n + size == (low + add - TWO_29 * carry) + TWO_29 * (x + y + carry);
    assert (n + size) / TWO_29 == x + y + carry && (n + size) % TWO_29 == low + add - TWO_29 * carry;
    assert Low(n) + size == (low + add - TWO_29 * carry) + TWO_29 * (y + carry);
    WrapSum(x, carry, y);
  }

  lemma {:induction false} SameInBlock(n: nat, blocks: nat)
    ensures (n + 64 * blocks) % 64 == n % 64
  {
  }

  lemma {:induction false} CountIndex(n: nat)
    ensures Low(n) % 64 == n % 64
  {
    var q := n / TWO_29;
    assert n == Low(n) + 64 * (0x80_0000 * q);
    SameInBlock(Low(n), 0x80_0000 * q);
  }

  /** The bit count that S_MD5Final writes: three more bits in the low word. */
  lemma {:induction false} CountBits(n: nat)
    ensures 8 * n % TWO_64 == 8 * Low(n) + TWO_32 * High(n)
  {
    var q := n / TWO_29;
    assert 8 * n == 8 * Low(n) + TWO_32 * q;
    assert q == High(n) + TWO_32 * (q / TWO_32);
    assert 8 * n == (8 * Low(n) + TWO_32 * High(n)) + TWO_64 * (q / TWO_32);
  }

  class Context {
    var lo: nat
    var hi: nat
    var a: bv32
    var b: bv32
    var c: bv32
    var d: bv32
    const buffer: array<byte>
    /** The message so far. */
    ghost var msg: seq<byte>

    ghost predicate Valid()
      reads this, buffer
    {
      && buffer.Length == 64
      && State(a, b, c, d) == Absorbed(msg)
      && lo == Low(|msg|) && hi == High(|msg|)
      && buffer[..|msg| % 64] == Tail(msg)
    }

    /** S_MD5Init */
    constructor ()
      ensures Valid() && msg == [] && fresh(buffer)
    {
      a, b, c, d := INIT.a, INIT.b, INIT.c, INIT.d;
      lo, hi := 0, 0;
      buffer := new byte[64];
      msg := [];
      new;
      assert buffer[..0] == [];
    }

    /** body: one or more blocks. */
    method Body(data: seq<byte>)
      requires |data| % 64 == 0 && |data| > 0
      modifies this`a, this`b, this`c, this`d
      ensures State(a, b, c, d) == Fold(Compress, old(State(a, b, c, d)), data)
    {
      hide Steps, Plus, Fold;
      ghost var h0 := State(a, b, c, d);
      var v := State(a, b, c, d);
      var ptr, size := 0, |data|;
      FoldNone(Compress, h0);
      assert data[..0] == [];
      while true
        invariant ptr % 64 == 0 && 0 < size && ptr + size == |data| && v == Fold(Compress, h0, data[..ptr])
        decreases size
      {
        var block := data[ptr..ptr + 64];
        var saved := v;
        NoSteps(saved, block);
        v := Steps0To7(v, block, saved);
        v := Steps8To15(v, block, saved);
        v := Steps16To23(v, block, saved);
        v := Steps24To31(v, block, saved);
        v := Steps32To39(v, block, saved);
        v := Steps40To47(v, block, saved);
        v := Steps48To55(v, block, saved);
        v := Steps56To63(v, block, saved);
        v := State(Plus(saved.a, v.a), Plus(saved.b, v.b), Plus(saved.c, v.c), Plus(saved.d, v.d));
        FoldBlock(Compress, h0, data[..ptr], block);
        assert data[..ptr] + block == data[..ptr + 64];
        ptr, size := ptr + 64, size - 64;
        if size == 0 { break; }
      }
      assert data[..ptr] == data;
      a, b, c, d := v.a, v.b, v.c, v.d;
    }

    /** The counter part of S_MD5Update. */
    method Count(size: nat)
      requires lo == Low(|msg|) && hi == High(|msg|)
      modifies this`lo, this`hi
      ensures lo == Low(|msg| + size) && hi == High(|msg| + size)
    {
      hide Low, High, Wrap32;
      CountAdds(|msg|, size);
      var savedLo := lo;
      lo := (savedLo + size) % TWO_29;
      hi := Wrap32(hi + if lo < savedLo then 1 else 0);
      hi := Wrap32(hi + size / TWO_29);
    }

    /** S_MD5Update */
    method Update(data: seq<byte>)
      requires Valid()
      modifies this, buffer
      ensures Valid() && msg == old(msg) + data
    {
      hide Absorbed, Low, High, Tail, Compress;
      CountIndex(|msg|);
      var savedLo := lo;
      Count(|data|);
      var used := savedLo % 64;
      var rest := data;
      ghost var done := msg;
      if used != 0 {
        var free := 64 - used;
        if |data| < free {
          Keep(msg, used, data);
          msg := msg + data;
          return;
        }
        FillBlock(used, data[..free]);
        rest := data[free..];
        done := msg + data[..free];
        assert done + rest == msg + data;
      }
      Rest(done, rest);
      msg := msg + data;
    }

    /** The part of S_MD5Update that starts with an empty buffer. */
    method Rest(ghost done: seq<byte>, data: seq<byte>)
      requires buffer.Length == 64 && |done| % 64 == 0 && State(a, b, c, d) == Absorbed(done)
      modifies this`a, this`b, this`c, this`d, buffer
      ensures State(a, b, c, d) == Absorbed(done + data) && buffer[..|done + data| % 64] == Tail(done + data)
    {
      hide Absorbed, Tail, Fold, Compress;
      assert buffer[..0] == Tail(done);
      if |data| >= 64 {
        var whole := |data| - |data| % 64;
        Body(data[..whole]);
        Joined(done, data[..whole]);
        assert Tail(done) + data[..whole] == data[..whole];
        assert done + data[..whole] + data[whole..] == done + data;
        Keep(done + data[..whole], 0, data[whole..]);
      } else {
        Keep(done, 0, data);
      }
    }

    /** The buffered bytes and `part` make a block. */
    method FillBlock(used: nat, part: seq<byte>)
      requires buffer.Length == 64 && State(a, b, c, d) == Absorbed(msg) && used == |msg| % 64
      requires buffer[..used] == Tail(msg) && |part| == 64 - used
      modifies this`a, this`b, this`c, this`d, buffer
      ensures State(a, b, c, d) == Absorbed(msg + part)
    {
      hide Absorbed, Tail;
      CopyInto(buffer, used, part);
      assert buffer[..] == Tail(msg) + part;
      Joined(msg, part);
      Body(buffer[..]);
    }

    /** The rest stays in the buffer. */
    method Keep(ghost done: seq<byte>, used: nat, rest: seq<byte>)
      requires buffer.Length == 64 && used == |done| % 64 && used + |rest| < 64
      requires State(a, b, c, d) == Absorbed(done) && buffer[..used] == Tail(done)
      modifies buffer
      ensures State(a, b, c, d) == Absorbed(done + rest) && buffer[..|done + rest| % 64] == Tail(done + rest)
    {
      hide Absorbed, Tail;
      CopyInto(buffer, used, rest);
      assert buffer[..used + |rest|] == buffer[..used] + rest;
      RestJoins(done, rest);
    }

    /** The part of S_MD5Final that pads up to the last eight bytes of a block. */
    method PadBuffer()
      requires Valid()
      modifies this`a, this`b, this`c, this`d, buffer
      ensures State(a, b, c, d) == Fold(Compress, Absorbed(msg), FrontBlocks(msg)) && buffer[..56] == FrontRest(msg)
    {
      hide Absorbed, Low, High, Tail, Fold, Compress;
      ghost var p := Front(msg);
      CountIndex(|msg|);
      FoldNone(Compress, Absorbed(msg));
      var used := lo % 64;
      buffer[used] := 0x80;
      used := used + 1;
      var free := 64 - used;
      if free < 8 {
        ZeroFill(buffer, used, free);
        assert buffer[..] == p[..64];
        Body(buffer[..]);
        used := 0;
        free := 64;
        ZeroFill(buffer, used, free - 8);
        assert buffer[..56] == p[64..];
      } else {
        ZeroFill(buffer, used, free - 8);
        assert p[..0] == [];
        assert buffer[..56] == p;
      }
    }

    method PutLength(low: nat, high: nat)
      requires buffer.Length == 64
      modifies buffer
      ensures buffer[..] == old(buffer[..56]) + (WordBytes(low) + WordBytes(high))
    {
      hide WordBytes;
      PutWord(buffer, 56, low);
      PutWord(buffer, 60, high);
      assert buffer[..] == buffer[..64];
    }

    /** S_MD5Final */
    method Final() returns (result: array<byte>)
      requires Valid()
      modifies this, buffer
      ensures fresh(result) && result[..] == Digest(old(msg))
      ensures lo == hi == 0 && a == b == c == d == 0 && forall k :: 0 <= k < 64 ==> buffer[k] == 0
    {
      hide Absorbed, Low, High, Tail, Fold, FrontBlocks, FrontRest;
      hide LengthBytes, Digest, DigestBytes, Compress, WordBytes;
      PadBuffer();
      lo := 8 * lo;
      ghost var bits := WordBytes(lo) + WordBytes(hi);
      PutLength(lo, hi);
      LengthBytesAre(|msg|);
      assert buffer[..] == FrontRest(msg) + bits;
      Body(buffer[..]);
      Finished(msg, bits, State(a, b, c, d));
      result := Encode(State(a, b, c, d));
      lo, hi, a, b, c, d := 0, 0, 0, 0, 0, 0;
      forall k | 0 <= k < 64 { buffer[k] := 0; }
    }
  }

  /** Bytes that do not complete a block only join the tail. */
  lemma {:induction false} RestJoins(m: seq<byte>, rest: seq<byte>)
    requires |m| % 64 + |rest| < 64
    ensures Absorbed(m + rest) == Absorbed(m) && Tail(m + rest) == Tail(m) + rest
  {
    hide Compress, Fold;
    RestKept(Compress, INIT, m, rest);
  }

  /** Bytes up to the end of a block. */
  lemma {:induction false} Joined(m: seq<byte>, data: seq<byte>)
    requires |m + data| % 64 == 0
    ensures Absorbed(m + data) == Fold(Compress, Absorbed(m), Tail(m) + data)
  {
    hide Compress, Fold;
    FoldJoined(Compress, INIT, m, data);
  }

  /** Message tail, the byte 0x80 and the zeros. */
  function Front(m: seq<byte>): (p: seq<byte>)
    ensures |p| % 64 == 56
  {
    Tail(m) + [0x80] + seq(ZeroCount(|m|), _ => 0)
  }

  function FrontBlocks(m: seq<byte>): (p: seq<byte>)
    ensures |p| % 64 == 0 && |p| == |Front(m)| - 56
  {
    Front(m)[..|Front(m)| - 56]
  }

  function FrontRest(m: seq<byte>): (p: seq<byte>)
    ensures |p| == 56
  {
    Front(m)[|Front(m)| - 56..]
  }

  lemma {:induction false} FrontParts(m: seq<byte>)
    ensures FrontBlocks(m) + FrontRest(m) == Front(m)
  {
    hide Front;
    var p := Front(m);
    var k := |p| - 56;
    assert p[..k] + p[k..] == p;
  }

  /** The four bytes of a word, least significant first. */
  function WordBytes(w: nat): (r: seq<byte>)
    ensures |r| == 4
  {
    [w % 256, w / 0x100 % 256, w / 0x1_0000 % 256, w / 0x100_0000 % 256]
  }

  /** The first `k` bytes of a number, least significant first. */
  function LittleEndian(v: nat, k: nat): (r: seq<byte>)
    ensures |r| == k
  {
    if k == 0 then [] else [v % 256] + LittleEndian(v / 256, k - 1)
  }

  lemma {:induction false} FourBytes(v: nat, k: nat)
    ensures LittleEndian(v, k + 4) == WordBytes(v) + LittleEndian(v / TWO_32, k)
  {
    var v1 := v / 256;
    var v2 := v1 / 256;
    var v3 := v2 / 256;
    ByteByByte(v);
    assert LittleEndian(v, k + 4) == [v % 256] + LittleEndian(v1, k + 3);
    assert LittleEndian(v1, k + 3) == [v1 % 256] + LittleEndian(v2, k + 2);
    assert LittleEndian(v2, k + 2) == [v2 % 256] + LittleEndian(v3, k + 1);
    assert LittleEndian(v3, k + 1) == [v3 % 256] + LittleEndian(v3 / 256, k);
  }

  /** RFC 1321 section 3.2: the length of an `n`-byte message in bits, modulo 2^64, low-order byte first. */
  function LengthBytes(n: nat): (r: seq<byte>)
    ensures |r| == 8
  {
    LittleEndian(8 * n % TWO_64, 8)
  }

  lemma {:induction false} LengthBytesAre(n: nat)
    ensures LengthBytes(n) == WordBytes(8 * Low(n)) + WordBytes(High(n))
  {
    hide LittleEndian, Low, High;
    var v := 8 * n % TWO_64;
    CountBits(n);
    FourBytes(v, 4);
    FourBytes(High(n), 0);
    LowBytes(v, 8 * Low(n), High(n));
    assert LittleEndian(High(n) / TWO_32, 0) == [];
  }

  function Value(w: bv32): nat { w as nat }

  function DigestBytes(v: State): seq<byte> {
    WordBytes(Value(v.a)) + WordBytes(Value(v.b)) + WordBytes(Value(v.c)) + WordBytes(Value(v.d))
  }

  /** RFC 1321 sections 3.1 to 3.5: pad, append the length, fold the compression over the blocks, output. */
  function Digest(m: seq<byte>): seq<byte> {
    DigestBytes(Absorbed(Padded(m, LengthBytes(|m|))))
  }

  /** What the last call of body leaves. */
  lemma {:induction false} Finished(m: seq<byte>, bits: seq<byte>, v: State)
    requires |bits| == 8 && bits == LengthBytes(|m|)
    requires v == Fold(Compress, Fold(Compress, Absorbed(m), FrontBlocks(m)), FrontRest(m) + bits)
    ensures DigestBytes(v) == Digest(m)
  {
    hide Compress, Fold, Absorbed, Tail, LengthBytes, DigestBytes, Front, FrontBlocks, FrontRest, Padded;
    FoldAppend(Compress, Absorbed(m), FrontBlocks(m), FrontRest(m) + bits);
    FrontParts(m);
    assert FrontBlocks(m) + (FrontRest(m) + bits) == Front(m) + bits;
    var pad := Padding(m, bits);
    Joined(m, pad);
  }

  lemma {:induction false} Padding(m: seq<byte>, bits: seq<byte>) returns (pad: seq<byte>)
    requires |bits| == 8
    ensures Padded(m, bits) == m + pad && Front(m) + bits == Tail(m) + pad
  {
    hide Tail;
    pad := [0x80] + seq(ZeroCount(|m|), _ => 0 as byte) + bits;
    assert Padded(m, bits) == m + pad;
  }

  /** A word, least significant byte first. */
  method PutWord(result: array<byte>, at: nat, w: nat)
    requires at + 4 <= result.Length
    modifies result
    ensures result[..at + 4] == old(result[..at]) + WordBytes(w)
  {
    result[at], result[at + 1] := w % 256, w / 0x100 % 256;
    result[at + 2], result[at + 3] := w / 0x1_0000 % 256, w / 0x100_0000 % 256;
  }

  method Encode(v: State) returns (result: array<byte>)
    ensures fresh(result) && result[..] == DigestBytes(v)
  {
    hide WordBytes, Value;
    result := new byte[16];
    PutWord(result, 0, Value(v.a));
    PutWord(result, 4, Value(v.b));
    PutWord(result, 8, Value(v.c));
    PutWord(result, 12, Value(v.d));
    assert result[..] == result[..16];
  }

  /** The loop of s_md5_file: whatever the reads return, the digest is that of the whole file. */
  method HashFile(chunks: seq<seq<byte>>) returns (digest: array<byte>)
    requires forall i :: 0 <= i < |chunks| ==> 0 < |chunks[i]| <= 1024
    ensures digest[..] == Digest(Concat(chunks))
  {
    hide Digest, Low, High, Absorbed, Tail, Concat;
    var context := new Context();
    ConcatNone(chunks);
    for i := 0 to |chunks|
      invariant context.Valid() && fresh(context) && fresh(context.buffer)
      invariant context.msg == Concat(chunks[..i])
    {
      ConcatSnoc(chunks, i);
      context.Update(chunks[i]);
    }
    assert chunks[..|chunks|] == chunks;
    digest := context.Final();
  }
}
