/** Bursts of up to 32 bits, which may begin and end inside a byte, and the checksum of c/src/code/crc32.c. */
module Crc32Bursts {
  import opened Crc32

  // ---------- Sums without carry ----------

  function Xor(a: bv32, b: bv32): bv32 {
    a ^ b
  }

  function Xor8(a: bv8, b: bv8): bv8 {
    a ^ b
  }

  lemma {:induction false} XorCancels(a: bv32, b: bv32, c: bv32)
    ensures Xor(Xor(a, b), Xor(b, c)) == Xor(a, c)
  {
  }

  lemma {:induction false} XorCommutes(a: bv32, b: bv32)
    ensures Xor(a, b) == Xor(b, a)
  {
  }

  lemma {:induction false} XorSwaps(a: bv32, b: bv32, c: bv32)
    ensures Xor(Xor(a, b), c) == Xor(Xor(a, c), b)
  {
    hide Xor;
    XorUndone(b, c);
    XorUndone(c, b);
    XorCommutes(b, c);
    XorCancels(a, b, Xor(b, c));
    XorCancels(a, c, Xor(c, b));
  }

  lemma {:induction false} XorUndone(a: bv32, b: bv32)
    ensures Xor(a, Xor(a, b)) == b
  {
  }

  // ---------- Bits of a byte ----------

  /** Bit `k` of a byte; the lowest one is the first to be transmitted. */
  predicate Bit(x: bv8, k: nat)
    requires k < 8
  {
    match k
    case 0 => x & 1 != 0
    case 1 => x & 2 != 0
    case 2 => x & 4 != 0
    case 3 => x & 8 != 0
    case 4 => x & 16 != 0
    case 5 => x & 32 != 0
    case 6 => x & 64 != 0
    case _ => x & 128 != 0
  }

  /** No bit below `b` is set. */
  predicate NoneBelow(d: bv8, b: nat)
    requires b < 8
  {
    match b
    case 0 => true
    case 1 => d & 1 == 0
    case 2 => d & 3 == 0
    case 3 => d & 7 == 0
    case 4 => d & 15 == 0
    case 5 => d & 31 == 0
    case 6 => d & 63 == 0
    case _ => d & 127 == 0
  }

  /** No bit from `b` on is set. */
  predicate NoneFrom(d: bv8, b: nat)
    requires b < 8
  {
    match b
    case 0 => d == 0
    case 1 => d >> 1 == 0
    case 2 => d >> 2 == 0
    case 3 => d >> 3 == 0
    case 4 => d >> 4 == 0
    case 5 => d >> 5 == 0
    case 6 => d >> 6 == 0
    case _ => d >> 7 == 0
  }

  lemma {:induction false} BitsBelow(x: bv8, y: bv8, b: nat)
    requires b < 8 && forall k :: 0 <= k < b ==> Bit(x, k) == Bit(y, k)
    ensures NoneBelow(Xor8(x, y), b)
  {
    assert b > 0 ==> Bit(x, 0) == Bit(y, 0);
    assert b > 1 ==> Bit(x, 1) == Bit(y, 1);
    assert b > 2 ==> Bit(x, 2) == Bit(y, 2);
    assert b > 3 ==> Bit(x, 3) == Bit(y, 3);
    assert b > 4 ==> Bit(x, 4) == Bit(y, 4);
    assert b > 5 ==> Bit(x, 5) == Bit(y, 5);
    assert b > 6 ==> Bit(x, 6) == Bit(y, 6);
  }

  lemma {:induction false} BitsFrom(x: bv8, y: bv8, b: nat)
    requires b < 8 && forall k :: b <= k < 8 ==> Bit(x, k) == Bit(y, k)
    ensures NoneFrom(Xor8(x, y), b)
  {
    assert b <= 0 ==> Bit(x, 0) == Bit(y, 0);
    assert b <= 1 ==> Bit(x, 1) == Bit(y, 1);
    assert b <= 2 ==> Bit(x, 2) == Bit(y, 2);
    assert b <= 3 ==> Bit(x, 3) == Bit(y, 3);
    assert b <= 4 ==> Bit(x, 4) == Bit(y, 4);
    assert b <= 5 ==> Bit(x, 5) == Bit(y, 5);
    assert b <= 6 ==> Bit(x, 6) == Bit(y, 6);
    assert Bit(x, 7) == Bit(y, 7);
  }

  lemma {:induction false} SameBits(x: bv8, y: bv8)
    requires forall k :: 0 <= k < 8 ==> Bit(x, k) == Bit(y, k)
    ensures x == y
  {
    hide Bit, Xor8;
    BitsFrom(x, y, 0);
    XorZero(x, y);
  }

  lemma {:induction false} XorZero(x: bv8, y: bv8)
    requires Xor8(x, y) == 0
    ensures x == y
  {
  }

  // ---------- The table is linear ----------

  lemma {:induction false} DividedEven(r: bv32)
    ensures r & 1 == 0 ==> Divided(r) == r >> 1
    ensures r & 1 == 1 ==> Divided(r) == (r >> 1) ^ 0xedb88320
    ensures r & 1 == 0 || r & 1 == 1
  {
  }

  lemma {:induction false} ShiftLinear(a: bv32, b: bv32)
    ensures (a ^ b) >> 1 == (a >> 1) ^ (b >> 1)
    ensures (a ^ b) & 1 == (a & 1) ^ (b & 1)
  {
  }

  lemma {:induction false} MaskLinear(x: bv32, y: bv32, p: bv32)
    ensures (x ^ p) ^ (y ^ p) == x ^ y && (x ^ p) ^ y == (x ^ y) ^ p && x ^ (y ^ p) == (x ^ y) ^ p
  {
  }

  lemma {:induction false} DividedLinear(a: bv32, b: bv32)
    ensures Xor(Divided(a), Divided(b)) == Divided(Xor(a, b))
  {
    hide Divided;
    DividedEven(a);
    DividedEven(b);
    DividedEven(a ^ b);
    ShiftLinear(a, b);
    MaskLinear(a >> 1, b >> 1, 0xedb88320);
  }

  lemma {:induction false} WidenLinear(i: bv8, j: bv8)
    ensures Xor(i as bv32, j as bv32) == Xor8(i, j) as bv32
  {
  }

  lemma {:induction false} RemainderLinear(i: bv8, j: bv8)
    ensures Xor(Remainder(i), Remainder(j)) == Remainder(Xor8(i, j))
  {
    hide Divided, Xor, Xor8;
    WidenLinear(i, j);
    var a, b := i as bv32, j as bv32;
    DividedLinear(a, b);
    a, b := Divided(a), Divided(b);
    DividedLinear(a, b);
    a, b := Divided(a), Divided(b);
    DividedLinear(a, b);
    a, b := Divided(a), Divided(b);
    DividedLinear(a, b);
    a, b := Divided(a), Divided(b);
    DividedLinear(a, b);
    a, b := Divided(a), Divided(b);
    DividedLinear(a, b);
    a, b := Divided(a), Divided(b);
    DividedLinear(a, b);
    a, b := Divided(a), Divided(b);
    DividedLinear(a, b);
  }

  lemma {:induction false} TableLinear(i: bv8, j: bv8)
    ensures Xor(Crc32Tab(i), Crc32Tab(j)) == Crc32Tab(Xor8(i, j))
  {
    hide Crc32Tab, Remainder, Xor, Xor8;
    TableIsRemainder(i);
    TableIsRemainder(j);
    TableIsRemainder(Xor8(i, j));
    RemainderLinear(i, j);
  }

  /** Entries of bytes that have no bit below `b` have a bit from 24 + `b` on. */
  lemma {:induction false} EntryReaches(i: bv8, b: nat)
    requires b < 8 && NoneBelow(i, b) && NoneFrom(Top(Crc32Tab(i)), b)
    ensures i == 0
  {
    hide Crc32Tab, Remainder;
    TableIsRemainder(i);
    RemainderReaches(i, b);
  }

  lemma {:induction false} RemainderReaches(i: bv8, b: nat)
    requires b < 8 && NoneBelow(i, b) && NoneFrom(Top(Remainder(i)), b)
    ensures i == 0
  {
  }

  // ---------- Four bytes as one word ----------

  function Word(a: bv8, b: bv8, c: bv8, d: bv8): bv32 {
    (a as bv32) | ((b as bv32) << 8) | ((c as bv32) << 16) | ((d as bv32) << 24)
  }

  function Low(x: bv32): bv8 {
    (x & 0xff) as bv8
  }

  function Rest(x: bv32): bv32 {
    x >> 8
  }

  /** Bytes may be added to the state before the step in which they are due. */
  lemma {:induction false} StepEarly(s: bv32, x: bv32)
    ensures Step(Xor(s, x), 0) == Xor(Step(s, Low(x)), Rest(x))
  {
    hide Crc32Tab, Mix, Index, Low, Rest, Xor;
    IndexEarly(s, x);
    MixEarly(s, x, Crc32Tab(Index(s, Low(x))));
  }

  lemma {:induction false} IndexEarly(s: bv32, x: bv32)
    ensures Index(Xor(s, x), 0) == Index(s, Low(x))
  {
  }

  lemma {:induction false} MixEarly(s: bv32, x: bv32, w: bv32)
    ensures Mix(Xor(s, x), w) == Xor(Mix(s, w), Rest(x))
  {
    hide Mix, Xor, High, Rest;
    MixIs(s, w);
    MixIs(Xor(s, x), w);
    HighEarly(s, x);
    XorSwaps(High(s), Rest(x), w);
  }

  /** What Mix keeps of the state. */
  function High(s: bv32): bv32 {
    (s >> 8) & 0x00ffffff
  }

  lemma {:induction false} MixIs(s: bv32, w: bv32)
    ensures Mix(s, w) == Xor(High(s), w)
  {
  }

  lemma {:induction false} HighEarly(s: bv32, x: bv32)
    ensures High(Xor(s, x)) == Xor(High(s), Rest(x))
  {
  }

  lemma {:induction false} WordBytes(a: bv8, b: bv8, c: bv8, d: bv8)
    ensures
      var x := Word(a, b, c, d);
      && Low(x) == a && Low(Rest(x)) == b && Low(Rest(Rest(x))) == c && Low(Rest(Rest(Rest(x)))) == d
      && Rest(Rest(Rest(Rest(x)))) == 0 && Top(x) == d
  {
  }

  lemma {:induction false} XorNothing(s: bv32)
    ensures Xor(s, 0) == s
  {
  }

  function Four(s: bv32): bv32 {
    Step(Step(Step(Step(s, 0), 0), 0), 0)
  }

  /** Four steps depend on the sum of the state and the four bytes alone. */
  lemma {:induction false} FourSteps(s: bv32, a: bv8, b: bv8, c: bv8, d: bv8)
    ensures Step(Step(Step(Step(s, a), b), c), d) == Four(Xor(s, Word(a, b, c, d)))
  {
    hide Step, Low, Rest, Xor, Word;
    var x := Word(a, b, c, d);
    WordBytes(a, b, c, d);
    StepEarly(s, x);
    StepEarly(Step(s, a), Rest(x));
    StepEarly(Step(Step(s, a), b), Rest(Rest(x)));
    StepEarly(Step(Step(Step(s, a), b), c), Rest(Rest(Rest(x))));
    XorNothing(Step(Step(Step(Step(s, a), b), c), d));
  }

  lemma {:induction false} FourInjective(s: bv32, t: bv32)
    requires Four(s) == Four(t)
    ensures s == t
  {
    hide Step;
    StepInjective(Step(Step(Step(s, 0), 0), 0), Step(Step(Step(t, 0), 0), 0), 0);
    StepInjective(Step(Step(s, 0), 0), Step(Step(t, 0), 0), 0);
    StepInjective(Step(s, 0), Step(t, 0), 0);
    StepInjective(s, t, 0);
  }

  // ---------- Five bytes ----------

  lemma {:induction false} IndexLinear(s: bv32, a: bv8, b: bv8)
    ensures Xor8(Index(s, a), Index(s, b)) == Xor8(a, b)
  {
  }

  lemma {:induction false} MixLinear(s: bv32, v: bv32, w: bv32)
    ensures Xor(Mix(s, v), Mix(s, w)) == Xor(v, w)
  {
    hide Mix, Xor, High;
    MixIs(s, v);
    MixIs(s, w);
    XorCommutes(High(s), v);
    XorCancels(v, High(s), w);
  }

  /** How two states differ after different bytes from the same state. */
  lemma {:induction false} FirstStep(s: bv32, a: bv8, b: bv8)
    ensures Xor(Step(s, a), Step(s, b)) == Crc32Tab(Xor8(a, b))
  {
    hide Crc32Tab, Mix, Index, Xor, Xor8;
    MixLinear(s, Crc32Tab(Index(s, a)), Crc32Tab(Index(s, b)));
    TableLinear(Index(s, a), Index(s, b));
    IndexLinear(s, a, b);
  }

  lemma {:induction false} Balance(s: bv32, x: bv32, t: bv32, y: bv32)
    requires Xor(s, x) == Xor(t, y)
    ensures Xor(s, t) == Xor(x, y)
  {
    hide Xor;
    XorCancels(s, x, t);
    XorCancels(y, t, x);
    XorCommutes(t, y);
    XorCommutes(x, t);
    XorCommutes(y, x);
  }

  lemma {:induction false} WordLinear(a: bv8, b: bv8, c: bv8, d: bv8, a': bv8, b': bv8, c': bv8, d': bv8)
    ensures Top(Xor(Word(a, b, c, d), Word(a', b', c', d'))) == Xor8(d, d')
    ensures Xor(Word(a, b, c, d), Word(a', b', c', d')) == 0 ==> a == a' && b == b' && c == c' && d == d'
  {
  }

  lemma {:induction false} EntryOfZero()
    ensures Crc32Tab(0) == 0
  {
    hide Crc32Tab;
    TableIsRemainder(0);
  }

  /** Two windows of five bytes that differ in at most 32 successive bits, with the first of them at bit `b` of the
      first byte, lead from one state to different ones. */
  lemma {:induction false} FiveBytesShow(s: bv32, v: seq<bv8>, w: seq<bv8>, b: nat)
    requires |v| == |w| == 5 && b < 8 && NoneBelow(Xor8(v[0], w[0]), b) && NoneFrom(Xor8(v[4], w[4]), b)
    requires Run(s, v) == Run(s, w)
    ensures v == w
  {
    hide Step, Four, Word, Xor, Xor8, Crc32Tab, Top, NoneBelow, NoneFrom, Run;
    var s1, t1 := Step(s, v[0]), Step(s, w[0]);
    var x, y := Word(v[1], v[2], v[3], v[4]), Word(w[1], w[2], w[3], w[4]);
    RunFive(s, v);
    RunFive(s, w);
    FourSteps(s1, v[1], v[2], v[3], v[4]);
    FourSteps(t1, w[1], w[2], w[3], w[4]);
    FourInjective(Xor(s1, x), Xor(t1, y));
    Balance(s1, x, t1, y);
    FirstStep(s, v[0], w[0]);
    WordLinear(v[1], v[2], v[3], v[4], w[1], w[2], w[3], w[4]);
    EntryReaches(Xor8(v[0], w[0]), b);
    EntryOfZero();
    XorZero(v[0], w[0]);
  }

  lemma {:induction false} RunFive(s: bv32, v: seq<bv8>)
    requires |v| == 5
    ensures Run(s, v) == Step(Step(Step(Step(Step(s, v[0]), v[1]), v[2]), v[3]), v[4])
  {
    hide Step;
    assert v[..4][..3] == v[..3] && v[..3][..2] == v[..2] && v[..2][..1] == v[..1] && v[..1][..0] == [];
    assert Run(s, v[..1]) == Step(s, v[0]);
    assert Run(s, v[..2]) == Step(Run(s, v[..1]), v[1]);
    assert Run(s, v[..3]) == Step(Run(s, v[..2]), v[2]);
    assert Run(s, v[..4]) == Step(Run(s, v[..3]), v[3]);
  }

  // ---------- Messages ----------

  /** The messages differ at most in the 32 bits from bit `p` on. */
  ghost predicate DifferWithin(v: seq<bv8>, w: seq<bv8>, p: nat)
    requires |v| == |w|
  {
    forall i, k :: 0 <= i < |v| && 0 <= k < 8 && !(p <= 8 * i + k < p + 32) ==> Bit(v[i], k) == Bit(w[i], k)
  }

  lemma {:induction false} BytesBefore(v: seq<bv8>, w: seq<bv8>, p: nat, i: nat)
    requires |v| == |w| && i < |v| && DifferWithin(v, w, p) && (8 * i + 8 <= p || p + 32 <= 8 * i)
    ensures v[i] == w[i]
  {
    hide Bit;
    SameBits(v[i], w[i]);
  }

  /** Error detection at its full strength: messages of any length that differ, and only within 32 successive bits,
      wherever these begin, have different checksums. */
  lemma {:induction false} BitBurstDetected(v: seq<bv8>, w: seq<bv8>, p: nat)
    requires |v| == |w| && v != w && DifferWithin(v, w, p)
    ensures Crc(v) != Crc(w)
  {
    hide Bit, Crc, NoneBelow, NoneFrom, Xor8, DifferWithin;
    var q, b := p / 8, p % 8;
    forall i | 0 <= i < |v| && (i < q || q + 5 <= i) ensures v[i] == w[i] { BytesBefore(v, w, p, i); }
    assert |v| <= q ==> v == w;
    if |v| < q + 5 {
      assert v == v[..q] + v[q..] + [] && w == v[..q] + w[q..] + [];
      BurstDetected(v[..q], v[q..], w[q..], []);
    } else {
      var x, y, after := v[q..q + 5], w[q..q + 5], v[q + 5..];
      assert v == v[..q] + x + after && w == v[..q] + y + after;
      EdgeBytes(v, w, p);
      FiveBytesDetected(v[..q], x, y, after, b);
    }
  }

  lemma {:induction false} EdgeBytes(v: seq<bv8>, w: seq<bv8>, p: nat)
    requires |v| == |w| && p / 8 + 5 <= |v| && DifferWithin(v, w, p)
    ensures
      var q, b := p / 8, p % 8;
      NoneBelow(Xor8(v[q], w[q]), b) && NoneFrom(Xor8(v[q + 4], w[q + 4]), b)
  {
    hide Bit, NoneBelow, NoneFrom, Xor8;
    BitsBelow(v[p / 8], w[p / 8], p % 8);
    BitsFrom(v[p / 8 + 4], w[p / 8 + 4], p % 8);
  }

  lemma {:induction false} FiveBytesDetected(before: seq<bv8>, v: seq<bv8>, w: seq<bv8>, after: seq<bv8>, b: nat)
    requires |v| == |w| == 5 && b < 8 && v != w
    requires NoneBelow(Xor8(v[0], w[0]), b) && NoneFrom(Xor8(v[4], w[4]), b)
    ensures Crc(before + v + after) != Crc(before + w + after)
  {
    hide Run, Crc, NoneBelow, NoneFrom, Xor8;
    RunAppend(INITIAL, before + v, after);
    RunAppend(INITIAL, before + w, after);
    RunAppend(INITIAL, before, v);
    RunAppend(INITIAL, before, w);
    if Crc(before + v + after) == Crc(before + w + after) {
      SameCrc(before + v + after, before + w + after);
      RunInjective(Run(INITIAL, before + v), Run(INITIAL, before + w), after);
      FiveBytesShow(Run(INITIAL, before), v, w, b);
    }
  }
}
