/** The checksum of c/src/code/crc32.c as a division of the message, bit by bit, and its check value. */
module Crc32Division {
  import opened Crc32
  import opened Crc32Bursts

  // ---------- The division ----------

  /** One bit of the message joins the lowest bit of the register, which is shifted out; if it was set, the polynomial
      x^32 + x^26 + x^23 + x^22 + x^16 + x^12 + x^11 + x^10 + x^8 + x^7 + x^5 + x^4 + x^2 + x + 1 is taken off, its
      highest power left out and the next one in the lowest bit. */
  function OneBit(r: bv32, bit: bool): bv32 {
    if (r & 1 == 1) == bit then r >> 1 else (r >> 1) ^ 0xedb88320
  }

  /** The first `k` bits of a byte, the lowest one first. */
  function SomeBits(r: bv32, c: bv8, k: nat): bv32
    requires k <= 8
  {
    if k == 0 then r else OneBit(SomeBits(r, c, k - 1), Bit(c, k - 1))
  }

  /** The register after a message. */
  function Division(r: bv32, msg: seq<bv8>): bv32 {
    if msg == [] then r else SomeBits(Division(r, msg[..|msg| - 1]), msg[|msg| - 1], 8)
  }

  // ---------- A step is a division by the bits of its byte ----------

  function Half(y: bv32): bv32 { y >> 1 }

  predicate Odd(y: bv32) { y & 1 == 1 }

  lemma {:induction false} OneBitIs(r: bv32, bit: bool)
    ensures OneBit(r, bit) == if Odd(r) == bit then Half(r) else Xor(Half(r), 0xedb88320)
  {
  }

  lemma {:induction false} DividedIs(r: bv32)
    ensures Divided(r) == if Odd(r) then Xor(Half(r), 0xedb88320) else Half(r)
  {
    hide Divided;
    DividedEven(r);
  }

  lemma {:induction false} HalfLinear(r: bv32, y: bv32)
    ensures Half(Xor(r, y)) == Xor(Half(r), Half(y)) && Odd(Xor(r, y)) == (Odd(r) != Odd(y))
  {
  }

  /** The bits that are still to come may be in the register already. */
  lemma {:induction false} BitEarly(r: bv32, y: bv32)
    ensures Xor(OneBit(r, Odd(y)), Half(y)) == Divided(Xor(r, y))
  {
    hide Xor, OneBit, Half, Divided, Odd;
    OneBitIs(r, Odd(y));
    DividedIs(Xor(r, y));
    HalfLinear(r, y);
    XorSwaps(Half(r), 0xedb88320, Half(y));
  }

  lemma {:induction false} BitsAre(c: bv8)
    ensures
      var w := c as bv32;
      && Bit(c, 0) == Odd(w)
      && Bit(c, 1) == Odd(Half(w))
      && Bit(c, 2) == Odd(Half(Half(w)))
      && Bit(c, 3) == Odd(Half(Half(Half(w))))
      && Bit(c, 4) == Odd(Half(Half(Half(Half(w)))))
      && Bit(c, 5) == Odd(Half(Half(Half(Half(Half(w))))))
      && Bit(c, 6) == Odd(Half(Half(Half(Half(Half(Half(w)))))))
      && Bit(c, 7) == Odd(Half(Half(Half(Half(Half(Half(Half(w))))))))
      && Half(Half(Half(Half(Half(Half(Half(Half(w)))))))) == 0
  {
  }

  function Eight(x: bv32): bv32 {
    Divided(Divided(Divided(Divided(Divided(Divided(Divided(Divided(x))))))))
  }

  lemma {:induction false} NextBit(r: bv32, c: bv8, k: nat, y: bv32)
    requires k < 8 && Bit(c, k) == Odd(y)
    ensures Xor(SomeBits(r, c, k + 1), Half(y)) == Divided(Xor(SomeBits(r, c, k), y))
  {
    hide OneBit, Divided, Bit, Odd, Half, Xor;
    BitEarly(SomeBits(r, c, k), y);
  }

  lemma {:induction false} EightBits(r: bv32, c: bv8)
    ensures SomeBits(r, c, 8) == Eight(Xor(r, c as bv32))
  {
    hide SomeBits, Bit, Divided, Xor, Odd, Half;
    BitsAre(c);
    var y := c as bv32;
    NoBits(r, c);
    NextBit(r, c, 0, y);
    y := Half(y);
    NextBit(r, c, 1, y);
    y := Half(y);
    NextBit(r, c, 2, y);
    y := Half(y);
    NextBit(r, c, 3, y);
    y := Half(y);
    NextBit(r, c, 4, y);
    y := Half(y);
    NextBit(r, c, 5, y);
    y := Half(y);
    NextBit(r, c, 6, y);
    y := Half(y);
    NextBit(r, c, 7, y);
    XorNothing(SomeBits(r, c, 8));
  }

  lemma {:induction false} NoBits(r: bv32, c: bv8)
    ensures SomeBits(r, c, 0) == r
  {
  }

  lemma {:induction false} EightLinear(a: bv32, b: bv32)
    ensures Eight(Xor(a, b)) == Xor(Eight(a), Eight(b))
  {
    hide Divided, Xor;
    DividedLinear(a, b);
    var x, y := Divided(a), Divided(b);
    DividedLinear(x, y);
    x, y := Divided(x), Divided(y);
    DividedLinear(x, y);
    x, y := Divided(x), Divided(y);
    DividedLinear(x, y);
    x, y := Divided(x), Divided(y);
    DividedLinear(x, y);
    x, y := Divided(x), Divided(y);
    DividedLinear(x, y);
    x, y := Divided(x), Divided(y);
    DividedLinear(x, y);
    x, y := Divided(x), Divided(y);
    DividedLinear(x, y);
  }

  /** What is eight bits up is only shifted down. */
  lemma {:induction false} EightShifts(x: bv32)
    ensures Eight(x & 0xffffff00) == (x >> 8) & 0x00ffffff
  {
  }

  lemma {:induction false} Parts(r: bv32, c: bv8)
    ensures Xor(r, c as bv32) == Xor(r & 0xffffff00, Index(r, c) as bv32)
  {
  }

  /** A step by the table divides eight bits out. */
  lemma {:induction false} StepDivides(r: bv32, c: bv8)
    ensures Step(r, c) == SomeBits(r, c, 8)
  {
    hide SomeBits, Divided, Eight, Xor, Index, Crc32Tab, Mix, High;
    EightBits(r, c);
    Parts(r, c);
    var i := Index(r, c);
    EightLinear(r & 0xffffff00, i as bv32);
    EightShifts(r);
    TableEight(i);
    MixIs(r, Crc32Tab(i));
    HighIs(r);
  }

  lemma {:induction false} HighIs(r: bv32)
    ensures High(r) == (r >> 8) & 0x00ffffff
  {
  }

  lemma {:induction false} TableEight(i: bv8)
    ensures Crc32Tab(i) == Eight(i as bv32)
  {
    hide Divided, Crc32Tab;
    TableIsRemainder(i);
  }

  /** The checksum of every message is its division, begun with ones, with all bits inverted at the end. */
  lemma {:induction false} CrcDivides(msg: seq<bv8>)
    ensures Crc(msg) == Division(0xffffffff, msg) ^ 0xffffffff
  {
    hide Run, Division;
    RunDivides(0xffffffff, msg);
  }

  lemma {:induction false} RunDivides(r: bv32, msg: seq<bv8>)
    ensures Run(r, msg) == Division(r, msg)
  {
    hide Step, SomeBits;
    if msg != [] {
      RunDivides(r, msg[..|msg| - 1]);
      StepDivides(Division(r, msg[..|msg| - 1]), msg[|msg| - 1]);
    }
  }

  // ---------- The check value ----------

  lemma {:induction false} FirstSteps()
    ensures Step(0xffffffff, 0x31) == 0x7c231048 && Step(0x7c231048, 0x32) == 0xb0acbb32
  {
  }

  lemma {:induction false} SecondSteps()
    ensures Step(0xb0acbb32, 0x33) == 0x77b79c2d && Step(0x77b79c2d, 0x34) == 0x641c1f5c
  {
  }

  lemma {:induction false} ThirdSteps()
    ensures Step(0x641c1f5c, 0x35) == 0x340ac5e3 && Step(0x340ac5e3, 0x36) == 0xf68d2c9e
  {
  }

  lemma {:induction false} LastSteps()
    ensures Step(0xf68d2c9e, 0x37) == 0xaffc9660 && Step(0xaffc9660, 0x38) == 0x651f2550
    ensures Step(0x651f2550, 0x39) == 0x340bc6d9
  {
  }

  /** The check value of the CRC-32 with this polynomial: that of the digits 1 to 9. */
  lemma {:induction false} CheckValue()
    ensures Crc([0x31, 0x32, 0x33, 0x34, 0x35, 0x36, 0x37, 0x38, 0x39]) == 0xcbf43926
  {
    hide Step, Run;
    FirstSteps();
    SecondSteps();
    ThirdSteps();
    LastSteps();
    var four, rest: seq<bv8> := [0x31, 0x32, 0x33, 0x34], [0x35, 0x36, 0x37, 0x38, 0x39];
    RunFour(0xffffffff, four);
    RunFive(0x641c1f5c, rest);
    RunAppend(0xffffffff, four, rest);
    assert [0x31, 0x32, 0x33, 0x34, 0x35, 0x36, 0x37, 0x38, 0x39] == four + rest;
  }

  lemma {:induction false} RunFour(s: bv32, v: seq<bv8>)
    requires |v| == 4
    ensures Run(s, v) == Step(Step(Step(Step(s, v[0]), v[1]), v[2]), v[3])
  {
    hide Step;
    assert v[..3][..2] == v[..2] && v[..2][..1] == v[..1] && v[..1][..0] == [];
    assert Run(s, v[..1]) == Step(s, v[0]);
    assert Run(s, v[..2]) == Step(Run(s, v[..1]), v[1]);
    assert Run(s, v[..3]) == Step(Run(s, v[..2]), v[2]);
  }
}
