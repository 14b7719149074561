/** c/src/code/sha1.c against FIPS 180-4. */
module Sha1 {
  import opened BitLaws
  import opened Bytes
  import opened Blocks

  // ---------- Words ----------

  /** FIPS 180-4 section 4.1.1 */
  function Ch(x: bv32, y: bv32, z: bv32): bv32 { (x & y) ^ (!x & z) }

  function Parity(x: bv32, y: bv32, z: bv32): bv32 { x ^ y ^ z }

  function Maj(x: bv32, y: bv32, z: bv32): bv32 { (x & y) ^ (x & z) ^ (y & z) }

  /** The macros F and H of the program. */
  function MacroF(x: bv32, y: bv32, z: bv32): bv32 { z ^ (x & (y ^ z)) }

  function MacroH(x: bv32, y: bv32, z: bv32): bv32 { (x & y) | (z & (x | y)) }

  lemma {:induction false} MacroFIsCh(x: bv32, y: bv32, z: bv32)
    ensures MacroF(x, y, z) == Ch(x, y, z)
  {
    ChoiceByXor(x, y, z);
  }

  lemma {:induction false} MacroHIsMaj(x: bv32, y: bv32, z: bv32)
    ensures MacroH(x, y, z) == Maj(x, y, z)
  {
    Majority(x, y, z);
  }

  /** The function of step `t`. */
  function Func(t: nat, x: bv32, y: bv32, z: bv32): bv32 {
    if t < 20 then Ch(x, y, z) else if t < 40 then Parity(x, y, z) else if t < 60 then Maj(x, y, z) else Parity(x, y, z)
  }

  /** FIPS 180-4 section 4.2.1 */
  function K(t: nat): bv32 {
    if t < 20 then 0x5a827999 else if t < 40 then 0x6ed9eba1 else if t < 60 then 0x8f1bbcdc else 0xca62c1d6
  }

  /** The big-endian word of four bytes. */
  function Word(a: byte, b: byte, c: byte, d: byte): bv32 {
    (d as bv32) | ((c as bv32) << 8) | ((b as bv32) << 16) | ((a as bv32) << 24)
  }

  /** Byte `i` of a word, counted from the most significant one. */
  function ByteOf(w: bv32, i: nat): byte
    requires i < 4
  {
    ((w >> (24 - 8 * i)) & 0xff) as bv8 as byte
  }

  function Xor4(a: bv32, b: bv32, c: bv32, d: bv32): bv32 {
    a ^ b ^ c ^ d
  }

  /** FIPS 180-4 section 6.1.2, step 1: the message schedule. */
  function W(block: Block, t: nat): bv32 {
    if t < 16 then Word(block[4 * t], block[4 * t + 1], block[4 * t + 2], block[4 * t + 3])
    else Rotl(Xor4(W(block, t - 3), W(block, t - 8), W(block, t - 14), W(block, t - 16)), 1)
  }

  datatype State = State(a: bv32, b: bv32, c: bv32, d: bv32, e: bv32)

  /** The sum of step 3, in the order of the standard. */
  function SumT(r: bv32, f: bv32, e: bv32, k: bv32, w: bv32): bv32 {
    r + f + e + k + w
  }

  /** FIPS 180-4 section 6.1.2, step 3: one of the 80 steps. */
  function Round(v: State, t: nat, w: bv32): State {
    State(SumT(Rotl(v.a, 5), Func(t, v.b, v.c, v.d), v.e, K(t), w), v.a, Rotl(v.b, 30), v.c, v.d)
  }

  function Rounds(h: State, block: Block, n: nat): State {
    if n == 0 then h else Round(Rounds(h, block, n - 1), n - 1, W(block, n - 1))
  }

  /** FIPS 180-4 section 6.1.2: the state after one block. */
  function Compress(h: State, block: Block): State {
    var v := Rounds(h, block, 80);
    State(Plus(h.a, v.a), Plus(h.b, v.b), Plus(h.c, v.c), Plus(h.d, v.d), Plus(h.e, v.e))
  }

  // ---------- The transform of the program ----------

  /** The new value of the last register in a step: the function, the word and the constant are added first. */
  function NewLast(t: nat, a: bv32, b: bv32, c: bv32, d: bv32, e: bv32, w: bv32): bv32 {
    var f :=
      if t < 20 then MacroF(b, c, d)
      else if t < 40 then Parity(b, c, d)
      else if t < 60 then MacroH(b, c, d)
      else Parity(b, c, d);
    var k := if t < 20 then 0x5a827999 else if t < 40 then 0x6ed9eba1 else if t < 60 then 0x8f1bbcdc else 0xca62c1d6;
    AddInOrder(e, f, w, k, Rotl(a, 5))
  }

  function AddInOrder(e: bv32, f: bv32, w: bv32, k: bv32, r: bv32): bv32 {
    (e + (f + w + k)) + r
  }

  lemma {:induction false} SumsAgree(e: bv32, f: bv32, w: bv32, k: bv32, r: bv32)
    ensures AddInOrder(e, f, w, k, r) == SumT(r, f, e, k, w)
  {
  }

  lemma {:induction false} NewLastIsRound(t: nat, a: bv32, b: bv32, c: bv32, d: bv32, e: bv32, w: bv32)
    ensures Round(State(a, b, c, d, e), t, w) == State(NewLast(t, a, b, c, d, e, w), a, Rotl(b, 30), c, d)
  {
    hide MacroF, MacroH, Ch, Maj, Parity, AddInOrder, SumT, Rotl;
    MacroFIsCh(b, c, d);
    MacroHIsMaj(b, c, d);
    SumsAgree(e, Func(t, b, c, d), w, K(t), Rotl(a, 5));
  }

  /** The ring holds the last sixteen words of the schedule before word `t`, or the first sixteen. */
  ghost predicate Ring(x: seq<bv32>, block: Block, t: nat) {
    |x| == 16 &&
    forall i: nat :: (if t < 16 then 0 else t - 16) <= i < (if t < 16 then 16 else t) ==> x[i % 16] == W(block, i)
  }

  /** x[t], or the macro W(t): computes a word of the schedule and puts it in place of the oldest one. */
  method NextWord(x: array<bv32>, t: nat, ghost block: Block) returns (w: bv32)
    requires x.Length == 16 && Ring(x[..], block, t)
    modifies x
    ensures w == W(block, t) && Ring(x[..], block, t + 1)
  {
    hide Rotl, Xor4, Word;
    ghost var old_x := x[..];
    if t < 16 {
      w := x[t];
      assert old_x[t % 16] == W(block, t);
    } else {
      assert old_x[(t - 3) % 16] == W(block, t - 3) && old_x[(t - 8) % 16] == W(block, t - 8);
      assert old_x[(t - 14) % 16] == W(block, t - 14) && old_x[(t - 16) % 16] == W(block, t - 16);
      var tmp := Xor4(x[(t - 3) % 16], x[(t - 8) % 16], x[(t - 14) % 16], x[t % 16]);
      x[t % 16] := Rotl(tmp, 1);
      w := x[t % 16];
      RingAdvances(old_x, x[..], block, t);
    }
  }

  lemma {:induction false} RingAdvances(x: seq<bv32>, x': seq<bv32>, block: Block, t: nat)
    requires 16 <= t && Ring(x, block, t) && x' == x[t % 16 := W(block, t)]
    ensures Ring(x', block, t + 1)
  {
    hide W;
    forall i: nat | t - 15 <= i < t + 1 ensures x'[i % 16] == W(block, i) {
      if i < t { assert i % 16 != t % 16; }
    }
  }

  /** Five consecutive steps: after them every register has its old role again. */
  method FiveSteps(x: array<bv32>, t: nat, v: State, ghost h: State, ghost block: Block) returns (v': State)
    requires x.Length == 16 && Ring(x[..], block, t) && v == Rounds(h, block, t)
    modifies x
    ensures Ring(x[..], block, t + 5) && v' == Rounds(h, block, t + 5)
  {
    hide W, NewLast, Round, Rotl, Ring;
    var State(a, b, c, d, e) := v;
    var w := NextWord(x, t, block);
    NewLastIsRound(t, a, b, c, d, e, w);
    e, b := NewLast(t, a, b, c, d, e, w), Rotl(b, 30);
    assert State(e, a, b, c, d) == Rounds(h, block, t + 1);
    w := NextWord(x, t + 1, block);
    NewLastIsRound(t + 1, e, a, b, c, d, w);
    d, a := NewLast(t + 1, e, a, b, c, d, w), Rotl(a, 30);
    assert State(d, e, a, b, c) == Rounds(h, block, t + 2);
    w := NextWord(x, t + 2, block);
    NewLastIsRound(t + 2, d, e, a, b, c, w);
    c, e := NewLast(t + 2, d, e, a, b, c, w), Rotl(e, 30);
    assert State(c, d, e, a, b) == Rounds(h, block, t + 3);
    w := NextWord(x, t + 3, block);
    NewLastIsRound(t + 3, c, d, e, a, b, w);
    b, d := NewLast(t + 3, c, d, e, a, b, w), Rotl(d, 30);
    assert State(b, c, d, e, a) == Rounds(h, block, t + 4);
    w := NextWord(x, t + 4, block);
    NewLastIsRound(t + 4, b, c, d, e, a, w);
    a, c := NewLast(t + 4, b, c, d, e, a, w), Rotl(c, 30);
    v' := State(a, b, c, d, e);
  }

  /** SHA1Decode */
  method Decode(block: Block) returns (x: array<bv32>)
    ensures fresh(x) && x.Length == 16 && Ring(x[..], block, 0)
  {
    hide Word;
    x := new bv32[16];
    var j := 0;
    for i := 0 to 16
      invariant j == 4 * i && forall k :: 0 <= k < i ==> x[k] == W(block, k)
    {
      x[i] := Word(block[j], block[j + 1], block[j + 2], block[j + 3]);
      j := j + 4;
    }
  }

  /** SHA1Transform: the 80 written-out steps are sixteen rounds of five. */
  method Transform(state: State, block: Block) returns (r: State)
    ensures r == Compress(state, block)
  {
    hide Ring, Plus, Rounds;
    var x := Decode(block);
    var v := state;
    NoRounds(state, block);
    for g := 0 to 16
      invariant x.Length == 16 && Ring(x[..], block, 5 * g) && v == Rounds(state, block, 5 * g)
    {
      v := FiveSteps(x, 5 * g, v, state, block);
    }
    r := State(Plus(state.a, v.a), Plus(state.b, v.b), Plus(state.c, v.c), Plus(state.d, v.d), Plus(state.e, v.e));
  }

  lemma {:induction false} NoRounds(h: State, block: Block)
    ensures Rounds(h, block, 0) == h
  {
  }

  // ---------- The context ----------

  /** S_SHA1Init, FIPS 180-4 section 5.3.1 */
  const INIT := State(0x67452301, 0xefcdab89, 0x98badcfe, 0x10325476, 0xc3d2e1f0)

  function Absorbed(m: seq<byte>): State {
    Fold(Compress, INIT, m)
  }

  /** The length of an `n`-byte message in bits, modulo 2^64, as two 32-bit words. */
  function LowCount(n: nat): (c: nat)
    ensures c < TWO_32
  {
    8 * n % TWO_32
  }

  function HighCount(n: nat): (c: nat)
    ensures c < TWO_32
  {
    8 * n / TWO_32 % TWO_32
  }

  /** Adding to the two-word counter, with its carry. */
  lemma {:induction false} CountAdds(n: nat, len: nat)
    requires len < TWO_32
    ensures
      var add := len * 8 % TWO_32;
      var c0 := (LowCount(n) + add) % TWO_32;
      c0 == LowCount(n + len) &&
      ((HighCount(n) + if c0 < add then 1 else 0) % TWO_32 + len / 0x2000_0000) % TWO_32 == HighCount(n + len)
  {
    var x, y := 8 * n, 8 * len;
    var low, add := x % TWO_32, y % TWO_32;
    var hx, hy := x / TWO_32, y / TWO_32;
    assert hy == len / 0x2000_0000;
    var carry := if low + add >= TWO_32 then 1 else 0;
    assert x + y == (low + add - TWO_32 * carry) + TWO_32 * (hx + hy + carry);
    assert (x + y) / TWO_32 == hx + hy + carry && (x + y) % TWO_32 == low + add - TWO_32 * carry;
    WrapSum(hx, carry, hy);
  }

  lemma {:induction false} CountIndex(n: nat)
    ensures LowCount(n) / 8 % 64 == n % 64
  {
    var q := 8 * n / TWO_32;
    assert 8 * n == LowCount(n) + TWO_32 * q;
    assert LowCount(n) / 8 == n - 0x2000_0000 * q;
  }

  /** The block loop's guard `i + 63 < inputLen` is computed in 32 bits: it is right for an input of `len` bytes,
      with `index` bytes in the buffer, when this holds. */
  predicate GuardSafe(index: nat, len: nat) {
    len - (index + len) % 64 + 63 < TWO_32
  }

  /** Where the loop has to stop, fewer than 64 bytes being left, the guard is false exactly when it is safe. */
  lemma {:induction false} GuardExact(index: nat, len: nat)
    requires index < 64 && 64 - index <= len < TWO_32
    ensures
      var i := len - (index + len) % 64;
      len - i < 64 && (!(Wrap32(i + 63) < len) <==> GuardSafe(index, len))
  {
  }

  /** An input just below 4 GB behind 14 buffered bytes: the loop goes on with ten bytes left. */
  lemma {:induction false} GuardWraps()
    ensures !GuardSafe(14, 0xffff_fffc) && Wrap32(0xffff_fff2 + 63) < 0xffff_fffc && 0xffff_fffc - 0xffff_fff2 == 10
  {
  }

  class Context {
    var state: State
    var count0: nat
    var count1: nat
    const buffer: array<byte>
    /** The message so far. */
    ghost var msg: seq<byte>

    ghost predicate Valid()
      reads this, buffer
    {
      && buffer.Length == 64
      && state == Absorbed(msg)
      && count0 == LowCount(|msg|) && count1 == HighCount(|msg|)
      && buffer[..|msg| % 64] == Tail(msg)
    }

    /** S_SHA1Init */
    constructor ()
      ensures Valid() && msg == [] && fresh(buffer)
    {
      count0, count1 := 0, 0;
      state := INIT;
      buffer := new byte[64];
      msg := [];
      new;
      assert buffer[..0] == [];
    }

    /** The counter part of S_SHA1Update. */
    method Count(inputLen: nat)
      requires count0 == LowCount(|msg|) && count1 == HighCount(|msg|) && inputLen < TWO_32
      modifies this`count0, this`count1
      ensures count0 == LowCount(|msg| + inputLen) && count1 == HighCount(|msg| + inputLen)
    {
      hide LowCount, HighCount;
      CountAdds(|msg|, inputLen);
      var add := inputLen * 8 % TWO_32;
      count0 := (count0 + add) % TWO_32;
      if count0 < add { count1 := (count1 + 1) % TWO_32; }
      count1 := (count1 + inputLen / 0x2000_0000) % TWO_32;
    }

    /** The transforming part of S_SHA1Update, when the input completes the buffered block. */
    method Absorb(input: seq<byte>, index: nat) returns (i: nat)
      requires buffer.Length == 64 && state == Absorbed(msg) && index == |msg| % 64 && buffer[..index] == Tail(msg)
      requires 64 - index <= |input| < TWO_32 && GuardSafe(index, |input|)
      modifies this`state, buffer
      ensures i <= |input| < i + 64 && |msg + input[..i]| % 64 == 0
      ensures state == Absorbed(msg + input[..i])
    {
      hide Compress, Absorbed, Tail, GuardSafe, Wrap32;
      var partLen := 64 - index;
      CopyInto(buffer, index, input[..partLen]);
      assert buffer[..] == Tail(msg) + input[..partLen];
      BlockJoins(msg, input[..partLen]);
      state := Transform(state, buffer[..]);
      i := partLen;
      while Wrap32(i + 63) < |input|
        invariant partLen <= i <= |input| && (index + i) % 64 == 0
        invariant state == Absorbed(msg + input[..i])
        decreases |input| - i
      {
        GuardInside(index, |input|, i);
        NextBlock(msg, input, i, input[i..i + 64]);
        state := Transform(state, input[i..i + 64]);
        i := i + 64;
      }
      assert (|msg| + i) % 64 == 0;
    }

    /** S_SHA1Update */
    method Update(input: seq<byte>)
      requires Valid() && |input| < TWO_32 && GuardSafe(|msg| % 64, |input|)
      modifies this, buffer
      ensures Valid() && msg == old(msg) + input
    {
      hide Absorbed, LowCount, HighCount, GuardSafe, Tail;
      CountIndex(|msg|);
      var index := count0 / 8 % 64;
      Count(|input|);
      var partLen := 64 - index;
      var i := 0;
      ghost var done := msg;
      if |input| >= partLen {
        i := Absorb(input, index);
        index := 0;
        done := msg + input[..i];
        assert msg + input[..i] + input[i..] == msg + input;
      } else {
        assert input[0..] == input;
      }
      Keep(done, index, input[i..]);
      msg := msg + input;
    }

    /** The remaining input stays in the buffer. */
    method Keep(ghost done: seq<byte>, index: nat, rest: seq<byte>)
      requires buffer.Length == 64 && index == |done| % 64 && index + |rest| < 64
      requires state == Absorbed(done) && buffer[..index] == Tail(done)
      modifies buffer
      ensures state == Absorbed(done + rest) && buffer[..|done + rest| % 64] == Tail(done + rest)
    {
      hide Absorbed, Tail;
      CopyInto(buffer, index, rest);
      assert buffer[..index + |rest|] == buffer[..index] + rest;
      RestJoins(done, rest);
    }

    /** The part of S_SHA1Final that pads and appends the length. */
    method Pad()
      requires Valid()
      modifies this, buffer
      ensures Valid() && msg == Padded(old(msg), LengthBytes(|old(msg)|))
    {
      hide Absorbed, LowCount, HighCount, GuardSafe, Tail, Padded, LengthBytes, CountBytes;
      ghost var m := msg;
      var bits := CountBytes(count0, count1);
      CountBytesAre(|m|);
      CountIndex(|m|);
      var index := count0 / 8 % 64;
      var padLen := if index < 56 then 56 - index else 120 - index;
      var padding := [0x80] + seq(padLen - 1, _ => 0 as byte);
      ShortIsSafe(index, padLen);
      Update(padding);
      ShortIsSafe(|msg| % 64, 8);
      Update(bits);
      PaddingIs(m, padLen, bits);
    }

    /** S_SHA1Final: pads, hands out the digest and clears the context. */
    method Final() returns (digest: array<byte>)
      requires Valid()
      modifies this, buffer
      ensures fresh(digest) && digest[..] == Digest(old(msg))
      ensures state == State(0, 0, 0, 0, 0) && count0 == count1 == 0 && forall k :: 0 <= k < 64 ==> buffer[k] == 0
    {
      hide Absorbed, LowCount, HighCount, Tail, Padded, LengthBytes, DigestBytes;
      Pad();
      digest := Encode(state);
      state := State(0, 0, 0, 0, 0);
      count0, count1 := 0, 0;
      forall k | 0 <= k < 64 { buffer[k] := 0; }
    }
  }

  /** Bytes that do not complete a block only join the tail. */
  lemma {:induction false} RestJoins(m: seq<byte>, rest: seq<byte>)
    requires |m| % 64 + |rest| < 64
    ensures Absorbed(m + rest) == Absorbed(m) && Tail(m + rest) == Tail(m) + rest
  {
    hide Compress, Fold;
    RestKept(Compress, INIT, m, rest);
  }

  /** Bytes up to the end of a block. */
  lemma {:induction false} BlockJoins(m: seq<byte>, part: seq<byte>)
    requires |part| == 64 - |m| % 64
    ensures Absorbed(m + part) == Compress(Absorbed(m), Tail(m) + part)
  {
    hide Compress, Fold;
    FoldFilled(Compress, INIT, m, part);
  }

  lemma {:induction false} NextBlock(m: seq<byte>, input: seq<byte>, i: nat, block: Block)
    requires (|m| % 64 + i) % 64 == 0 && i + 64 <= |input| && block == input[i..i + 64]
    ensures Absorbed(m + input[..i + 64]) == Compress(Absorbed(m + input[..i]), block)
  {
    hide Compress, Fold;
    assert |m + input[..i]| % 64 == 0;
    FoldBlock(Compress, INIT, m + input[..i], input[i..i + 64]);
    assert m + input[..i] + input[i..i + 64] == m + input[..i + 64];
  }

  lemma {:induction false} PaddingIs(m: seq<byte>, padLen: nat, length: seq<byte>)
    requires |length| == 8 && padLen == if |m| % 64 < 56 then 56 - |m| % 64 else 120 - |m| % 64
    ensures Padded(m, length) == m + ([0x80] + seq(padLen - 1, _ => 0 as byte)) + length
  {
    assert padLen - 1 == ZeroCount(|m|);
    assert m + ([0x80] + seq(padLen - 1, _ => 0 as byte)) + length == m + [0x80] + seq(padLen - 1, _ => 0) + length;
  }

  lemma {:induction false} ShortIsSafe(index: nat, len: nat)
    requires len < 64 + 64
    ensures GuardSafe(index, len)
  {
  }

  // ---------- Finishing ----------

  /** The eight bytes of the two counter words, as S_SHA1Final writes them. */
  function CountBytes(c0: nat, c1: nat): (r: seq<byte>)
    ensures |r| == 8
  {
    [c1 / 0x100_0000 % 256, c1 / 0x1_0000 % 256, c1 / 0x100 % 256, c1 % 256,
     c0 / 0x100_0000 % 256, c0 / 0x1_0000 % 256, c0 / 0x100 % 256, c0 % 256]
  }

  /** The last `k` big-endian bytes of a number. */
  function BigEndian(v: nat, k: nat): (r: seq<byte>)
    ensures |r| == k
  {
    if k == 0 then [] else BigEndian(v / 256, k - 1) + [v % 256]
  }

  lemma {:induction false} FourBytes(v: nat, k: nat)
    ensures BigEndian(v, k + 4) ==
      BigEndian(v / TWO_32, k) + [v / 0x100_0000 % 256, v / 0x1_0000 % 256, v / 0x100 % 256, v % 256]
  {
    var v1 := v / 256;
    var v2 := v1 / 256;
    var v3 := v2 / 256;
    ByteByByte(v);
    assert BigEndian(v, k + 4) == BigEndian(v1, k + 3) + [v % 256];
    assert BigEndian(v1, k + 3) == BigEndian(v2, k + 2) + [v1 % 256];
    assert BigEndian(v2, k + 2) == BigEndian(v3, k + 1) + [v2 % 256];
    assert BigEndian(v3, k + 1) == BigEndian(v3 / 256, k) + [v3 % 256];
  }

  /** The counter words state the length of the message in bits, modulo 2^64 (FIPS 180-4 section 5.1.1). */
  lemma {:induction false} CountBytesAre(n: nat)
    ensures CountBytes(LowCount(n), HighCount(n)) == LengthBytes(n)
  {
    var c0, c1 := LowCount(n), HighCount(n);
    var v := 8 * n % TWO_64;
    CountWords(n);
    FourBytes(v, 4);
    FourBytes(c1, 0);
    LowBytes(v, c0, c1);
  }

  lemma {:induction false} CountWords(n: nat)
    ensures 8 * n % TWO_64 == LowCount(n) + TWO_32 * HighCount(n)
  {
    var x := 8 * n;
    var q := x / TWO_32;
    assert x == LowCount(n) + TWO_32 * q;
    assert q == HighCount(n) + TWO_32 * (q / TWO_32);
  }

  function WordBytes(w: bv32): (r: seq<byte>)
    ensures |r| == 4
  {
    [ByteOf(w, 0), ByteOf(w, 1), ByteOf(w, 2), ByteOf(w, 3)]
  }

  function DigestBytes(v: State): seq<byte> {
    WordBytes(v.a) + WordBytes(v.b) + WordBytes(v.c) + WordBytes(v.d) + WordBytes(v.e)
  }

  /** The length of an `n`-byte message in bits, modulo 2^64, as eight bytes. */
  function LengthBytes(n: nat): (r: seq<byte>)
    ensures |r| == 8
  {
    BigEndian(8 * n % TWO_64, 8)
  }

  /** FIPS 180-4 sections 5.1.1 and 6.1.2: pad, divide into blocks, and fold the compression over them. */
  function Digest(m: seq<byte>): seq<byte> {
    DigestBytes(Absorbed(Padded(m, LengthBytes(|m|))))
  }

  /** SHA1Encode, for the five words of the state. */
  method Encode(state: State) returns (output: array<byte>)
    ensures fresh(output) && output[..] == DigestBytes(state)
  {
    hide ByteOf, DigestBytes, Words;
    NoWords();
    var input := [state.a, state.b, state.c, state.d, state.e];
    output := new byte[20];
    var i, j := 0, 0;
    while j < 20
      invariant j == 4 * i && i <= 5
      invariant output[..j] == Words(input[..i])
    {
      output[j] := ByteOf(input[i], 0);
      output[j + 1] := ByteOf(input[i], 1);
      output[j + 2] := ByteOf(input[i], 2);
      output[j + 3] := ByteOf(input[i], 3);
      assert output[..j + 4] == output[..j] + WordBytes(input[i]);
      WordsSnoc(input, i);
      i, j := i + 1, j + 4;
    }
    assert output[..20] == output[..] && input[..5] == input;
    FiveWords(state);
  }

  function Words(ws: seq<bv32>): seq<byte> {
    if ws == [] then [] else Words(ws[..|ws| - 1]) + WordBytes(ws[|ws| - 1])
  }

  lemma {:induction false} NoWords()
    ensures Words([]) == []
  {
  }

  lemma {:induction false} WordsSnoc(ws: seq<bv32>, i: nat)
    requires i < |ws|
    ensures Words(ws[..i + 1]) == Words(ws[..i]) + WordBytes(ws[i])
  {
    assert ws[..i + 1][..i] == ws[..i];
  }

  lemma {:induction false} FiveWords(v: State)
    ensures Words([v.a, v.b, v.c, v.d, v.e]) == DigestBytes(v)
  {
    hide WordBytes;
    var ws := [v.a, v.b, v.c, v.d, v.e];
    assert ws[..4] == [v.a, v.b, v.c, v.d];
    assert ws[..4][..3] == [v.a, v.b, v.c];
    assert ws[..4][..3][..2] == [v.a, v.b];
    assert ws[..4][..3][..2][..1] == [v.a];
    assert ws[..4][..3][..2][..1][..0] == [];
    assert Words([v.a]) == WordBytes(v.a);
    assert Words([v.a, v.b]) == WordBytes(v.a) + WordBytes(v.b);
    assert Words([v.a, v.b, v.c]) == WordBytes(v.a) + WordBytes(v.b) + WordBytes(v.c);
  }

  /** The loop of s_sha1_file: whatever the reads return, the digest is that of the whole file. */
  method HashFile(chunks: seq<seq<byte>>) returns (digest: array<byte>)
    requires forall i :: 0 <= i < |chunks| ==> 0 < |chunks[i]| <= 1024
    ensures digest[..] == Digest(Concat(chunks))
  {
    hide Digest, LowCount, HighCount, Absorbed, Tail, GuardSafe, Concat;
    var context := new Context();
    ConcatNone(chunks);
    for i := 0 to |chunks|
      invariant context.Valid() && fresh(context) && fresh(context.buffer)
      invariant context.msg == Concat(chunks[..i])
    {
      ConcatSnoc(chunks, i);
      SmallIsSafe(|context.msg| % 64, |chunks[i]|);
      context.Update(chunks[i]);
    }
    assert chunks[..|chunks|] == chunks;
    digest := context.Final();
  }

  lemma {:induction false} SmallIsSafe(index: nat, len: nat)
    requires len <= 0xffff_ffc0
    ensures GuardSafe(index, len)
  {
  }

  /** Inside the loop at least 64 bytes are left. */
  lemma {:induction false} GuardInside(index: nat, len: nat, i: nat)
    requires index < 64 && GuardSafe(index, len) && i <= len < TWO_32 && (index + i) % 64 == 0 && Wrap32(i + 63) < len
    ensures i + 64 <= len
  {
    LeftOver(index + i, len - i);
  }

  lemma {:induction false} LeftOver(whole: nat, left: nat)
    requires whole % 64 == 0
    ensures left < 64 ==> (whole + left) % 64 == left
  {
  }
}
