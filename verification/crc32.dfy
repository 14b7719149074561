/** c/src/code/crc32.c and the table of c/src/code/crc32.h. */
module Crc32 {
  // ---------- The table ----------

  /** One line of the table. */
  function Row(i: bv8, a: bv32, b: bv32, c: bv32, d: bv32): bv32 {
    if i & 2 == 0 then (if i & 1 == 0 then a else b) else (if i & 1 == 0 then c else d)
  }

  function Quarter0(i: bv8): bv32 {
    match (i >> 2) & 15
    case 0 => Row(i, 0x00000000, 0x77073096, 0xee0e612c, 0x990951ba)
    case 1 => Row(i, 0x076dc419, 0x706af48f, 0xe963a535, 0x9e6495a3)
    case 2 => Row(i, 0x0edb8832, 0x79dcb8a4, 0xe0d5e91e, 0x97d2d988)
    case 3 => Row(i, 0x09b64c2b, 0x7eb17cbd, 0xe7b82d07, 0x90bf1d91)
    case 4 => Row(i, 0x1db71064, 0x6ab020f2, 0xf3b97148, 0x84be41de)
    case 5 => Row(i, 0x1adad47d, 0x6ddde4eb, 0xf4d4b551, 0x83d385c7)
    case 6 => Row(i, 0x136c9856, 0x646ba8c0, 0xfd62f97a, 0x8a65c9ec)
    case 7 => Row(i, 0x14015c4f, 0x63066cd9, 0xfa0f3d63, 0x8d080df5)
    case 8 => Row(i, 0x3b6e20c8, 0x4c69105e, 0xd56041e4, 0xa2677172)
    case 9 => Row(i, 0x3c03e4d1, 0x4b04d447, 0xd20d85fd, 0xa50ab56b)
    case 10 => Row(i, 0x35b5a8fa, 0x42b2986c, 0xdbbbc9d6, 0xacbcf940)
    case 11 => Row(i, 0x32d86ce3, 0x45df5c75, 0xdcd60dcf, 0xabd13d59)
    case 12 => Row(i, 0x26d930ac, 0x51de003a, 0xc8d75180, 0xbfd06116)
    case 13 => Row(i, 0x21b4f4b5, 0x56b3c423, 0xcfba9599, 0xb8bda50f)
    case 14 => Row(i, 0x2802b89e, 0x5f058808, 0xc60cd9b2, 0xb10be924)
    case _ => Row(i, 0x2f6f7c87, 0x58684c11, 0xc1611dab, 0xb6662d3d)
  }

  function Quarter1(i: bv8): bv32 {
    match (i >> 2) & 15
    case 0 => Row(i, 0x76dc4190, 0x01db7106, 0x98d220bc, 0xefd5102a)
    case 1 => Row(i, 0x71b18589, 0x06b6b51f, 0x9fbfe4a5, 0xe8b8d433)
    case 2 => Row(i, 0x7807c9a2, 0x0f00f934, 0x9609a88e, 0xe10e9818)
    case 3 => Row(i, 0x7f6a0dbb, 0x086d3d2d, 0x91646c97, 0xe6635c01)
    case 4 => Row(i, 0x6b6b51f4, 0x1c6c6162, 0x856530d8, 0xf262004e)
    case 5 => Row(i, 0x6c0695ed, 0x1b01a57b, 0x8208f4c1, 0xf50fc457)
    case 6 => Row(i, 0x65b0d9c6, 0x12b7e950, 0x8bbeb8ea, 0xfcb9887c)
    case 7 => Row(i, 0x62dd1ddf, 0x15da2d49, 0x8cd37cf3, 0xfbd44c65)
    case 8 => Row(i, 0x4db26158, 0x3ab551ce, 0xa3bc0074, 0xd4bb30e2)
    case 9 => Row(i, 0x4adfa541, 0x3dd895d7, 0xa4d1c46d, 0xd3d6f4fb)
    case 10 => Row(i, 0x4369e96a, 0x346ed9fc, 0xad678846, 0xda60b8d0)
    case 11 => Row(i, 0x44042d73, 0x33031de5, 0xaa0a4c5f, 0xdd0d7cc9)
    case 12 => Row(i, 0x5005713c, 0x270241aa, 0xbe0b1010, 0xc90c2086)
    case 13 => Row(i, 0x5768b525, 0x206f85b3, 0xb966d409, 0xce61e49f)
    case 14 => Row(i, 0x5edef90e, 0x29d9c998, 0xb0d09822, 0xc7d7a8b4)
    case _ => Row(i, 0x59b33d17, 0x2eb40d81, 0xb7bd5c3b, 0xc0ba6cad)
  }

  function Quarter2(i: bv8): bv32 {
    match (i >> 2) & 15
    case 0 => Row(i, 0xedb88320, 0x9abfb3b6, 0x03b6e20c, 0x74b1d29a)
    case 1 => Row(i, 0xead54739, 0x9dd277af, 0x04db2615, 0x73dc1683)
    case 2 => Row(i, 0xe3630b12, 0x94643b84, 0x0d6d6a3e, 0x7a6a5aa8)
    case 3 => Row(i, 0xe40ecf0b, 0x9309ff9d, 0x0a00ae27, 0x7d079eb1)
    case 4 => Row(i, 0xf00f9344, 0x8708a3d2, 0x1e01f268, 0x6906c2fe)
    case 5 => Row(i, 0xf762575d, 0x806567cb, 0x196c3671, 0x6e6b06e7)
    case 6 => Row(i, 0xfed41b76, 0x89d32be0, 0x10da7a5a, 0x67dd4acc)
    case 7 => Row(i, 0xf9b9df6f, 0x8ebeeff9, 0x17b7be43, 0x60b08ed5)
    case 8 => Row(i, 0xd6d6a3e8, 0xa1d1937e, 0x38d8c2c4, 0x4fdff252)
    case 9 => Row(i, 0xd1bb67f1, 0xa6bc5767, 0x3fb506dd, 0x48b2364b)
    case 10 => Row(i, 0xd80d2bda, 0xaf0a1b4c, 0x36034af6, 0x41047a60)
    case 11 => Row(i, 0xdf60efc3, 0xa867df55, 0x316e8eef, 0x4669be79)
    case 12 => Row(i, 0xcb61b38c, 0xbc66831a, 0x256fd2a0, 0x5268e236)
    case 13 => Row(i, 0xcc0c7795, 0xbb0b4703, 0x220216b9, 0x5505262f)
    case 14 => Row(i, 0xc5ba3bbe, 0xb2bd0b28, 0x2bb45a92, 0x5cb36a04)
    case _ => Row(i, 0xc2d7ffa7, 0xb5d0cf31, 0x2cd99e8b, 0x5bdeae1d)
  }

  function Quarter3(i: bv8): bv32 {
    match (i >> 2) & 15
    case 0 => Row(i, 0x9b64c2b0, 0xec63f226, 0x756aa39c, 0x026d930a)
    case 1 => Row(i, 0x9c0906a9, 0xeb0e363f, 0x72076785, 0x05005713)
    case 2 => Row(i, 0x95bf4a82, 0xe2b87a14, 0x7bb12bae, 0x0cb61b38)
    case 3 => Row(i, 0x92d28e9b, 0xe5d5be0d, 0x7cdcefb7, 0x0bdbdf21)
    case 4 => Row(i, 0x86d3d2d4, 0xf1d4e242, 0x68ddb3f8, 0x1fda836e)
    case 5 => Row(i, 0x81be16cd, 0xf6b9265b, 0x6fb077e1, 0x18b74777)
    case 6 => Row(i, 0x88085ae6, 0xff0f6a70, 0x66063bca, 0x11010b5c)
    case 7 => Row(i, 0x8f659eff, 0xf862ae69, 0x616bffd3, 0x166ccf45)
    case 8 => Row(i, 0xa00ae278, 0xd70dd2ee, 0x4e048354, 0x3903b3c2)
    case 9 => Row(i, 0xa7672661, 0xd06016f7, 0x4969474d, 0x3e6e77db)
    case 10 => Row(i, 0xaed16a4a, 0xd9d65adc, 0x40df0b66, 0x37d83bf0)
    case 11 => Row(i, 0xa9bcae53, 0xdebb9ec5, 0x47b2cf7f, 0x30b5ffe9)
    case 12 => Row(i, 0xbdbdf21c, 0xcabac28a, 0x53b39330, 0x24b4a3a6)
    case 13 => Row(i, 0xbad03605, 0xcdd70693, 0x54de5729, 0x23d967bf)
    case 14 => Row(i, 0xb3667a2e, 0xc4614ab8, 0x5d681b02, 0x2a6f2b94)
    case _ => Row(i, 0xb40bbe37, 0xc30c8ea1, 0x5a05df1b, 0x2d02ef8d)
  }

  /** crc32tab */
  function Crc32Tab(i: bv8): bv32 {
    match i >> 6
    case 0 => Quarter0(i)
    case 1 => Quarter1(i)
    case 2 => Quarter2(i)
    case _ => Quarter3(i)
  }

  /** One bit divided out. Zero minus the bit is a mask of all ones or none. */
  function Divided(r: bv32): bv32 {
    (r >> 1) ^ ((0 - (r & 1)) & 0xedb88320)
  }

  /** The remainder of a byte divided bit by bit by the AUTODIN II polynomial (highest power in the lowest bit):
      what the table should hold. */
  function Remainder(i: bv8): bv32 {
    Divided(Divided(Divided(Divided(Divided(Divided(Divided(Divided(i as bv32))))))))
  }

  /** The same as a sum over the bits of the byte. */
  function BitSum(i: bv8): bv32 {
    (if i & 1 == 0 then 0 else 0x77073096) ^ (if i & 2 == 0 then 0 else 0xee0e612c)
    ^ (if i & 4 == 0 then 0 else 0x076dc419) ^ (if i & 8 == 0 then 0 else 0x0edb8832)
    ^ (if i & 16 == 0 then 0 else 0x1db71064) ^ (if i & 32 == 0 then 0 else 0x3b6e20c8)
    ^ (if i & 64 == 0 then 0 else 0x76dc4190) ^ (if i & 128 == 0 then 0 else 0xedb88320)
  }

  lemma {:induction false} RemainderIsSum(i: bv8)
    ensures BitSum(i) == Remainder(i)
  {
  }

  lemma {:induction false} Quarter0IsSum(i: bv8)
    requires i >> 6 == 0
    ensures Quarter0(i) == BitSum(i)
  {
  }

  lemma {:induction false} Quarter1IsSum(i: bv8)
    requires i >> 6 == 1
    ensures Quarter1(i) == BitSum(i)
  {
  }

  lemma {:induction false} Quarter2IsSum(i: bv8)
    requires i >> 6 == 2
    ensures Quarter2(i) == BitSum(i)
  {
  }

  lemma {:induction false} Quarter3IsSum(i: bv8)
    requires i >> 6 == 3
    ensures Quarter3(i) == BitSum(i)
  {
  }

  /** The table holds the remainders of the AUTODIN II polynomial, as its comment says. */
  lemma {:induction false} TableIsRemainder(i: bv8)
    ensures Crc32Tab(i) == Remainder(i)
  {
    hide Quarter0, Quarter1, Quarter2, Quarter3, Remainder, BitSum;
    RemainderIsSum(i);
    if i >> 6 == 0 { Quarter0IsSum(i); }
    else if i >> 6 == 1 { Quarter1IsSum(i); }
    else if i >> 6 == 2 { Quarter2IsSum(i); }
    else { Quarter3IsSum(i); }
  }

  function Top(w: bv32): bv8 {
    (w >> 24) as bv8
  }

  /** The top bytes of the table are pairwise distinct. */
  lemma {:induction false} TopsDistinct(i: bv8, j: bv8)
    requires Top(Crc32Tab(i)) == Top(Crc32Tab(j))
    ensures i == j
  {
    hide Crc32Tab, Remainder;
    TableIsRemainder(i);
    TableIsRemainder(j);
    RemainderTopsDistinct(i, j);
  }

  lemma {:induction false} RemainderTopsDistinct(i: bv8, j: bv8)
    requires Top(Remainder(i)) == Top(Remainder(j))
    ensures i == j
  {
  }

  // ---------- The step ----------

  /** The table index that a step uses. */
  function Index(crc: bv32, c: bv8): bv8 {
    ((crc & 0xff) as bv8) ^ c
  }

  /** The rest of the state and a table entry. */
  function Mix(crc: bv32, w: bv32): bv32 {
    ((crc >> 8) & 0x00ffffff) ^ w
  }

  /** One round of the loop. */
  function Step(crc: bv32, c: bv8): bv32 {
    Mix(crc, Crc32Tab(Index(crc, c)))
  }

  /** Two states agree from bit 8 * k on. */
  predicate AgreeAbove(s: bv32, t: bv32, k: nat)
    requires k <= 4
  {
    match k
    case 0 => s == t
    case 1 => s >> 8 == t >> 8
    case 2 => s >> 16 == t >> 16
    case 3 => s >> 24 == t >> 24
    case _ => true
  }

  /** A step shows which table entry it used, and one byte less of the state before it. */
  lemma {:induction false} StepBack(s: bv32, c: bv8, t: bv32, d: bv8, k: nat)
    requires k < 4 && AgreeAbove(Step(s, c), Step(t, d), k)
    ensures Index(s, c) == Index(t, d) && AgreeAbove(s, t, k + 1)
  {
    hide Crc32Tab, Mix, Top, Index, AgreeAbove;
    var i, j := Index(s, c), Index(t, d);
    TopOfStep(s, Crc32Tab(i));
    TopOfStep(t, Crc32Tab(j));
    AgreeTop(Step(s, c), Step(t, d), k);
    TopsDistinct(i, j);
    Cancel(s, t, Crc32Tab(i), k);
  }

  lemma {:induction false} TopOfStep(s: bv32, w: bv32)
    ensures Top(Mix(s, w)) == Top(w)
  {
  }

  lemma {:induction false} AgreeTop(s: bv32, t: bv32, k: nat)
    requires k < 4 && AgreeAbove(s, t, k)
    ensures Top(s) == Top(t)
  {
    hide Top;
    Agree0(s, t);
    Agree1(s, t);
    Agree2(s, t);
    Agree3(s, t);
  }

  lemma {:induction false} Agree0(s: bv32, t: bv32)
    ensures s == t ==> Top(s) == Top(t)
  {
  }

  lemma {:induction false} Agree1(s: bv32, t: bv32)
    ensures s >> 8 == t >> 8 ==> Top(s) == Top(t)
  {
  }

  lemma {:induction false} Agree3(s: bv32, t: bv32)
    ensures s >> 24 == t >> 24 ==> Top(s) == Top(t)
  {
  }

  lemma {:induction false} Agree2(s: bv32, t: bv32)
    ensures s >> 16 == t >> 16 ==> Top(s) == Top(t)
  {
  }

  lemma {:induction false} Cancel(s: bv32, t: bv32, w: bv32, k: nat)
    requires k < 4 && AgreeAbove(Mix(s, w), Mix(t, w), k)
    ensures AgreeAbove(s, t, k + 1)
  {
    hide Mix;
    if k == 0 { Cancel0(s, t, w); }
    if k == 1 { Cancel1(s, t, w); }
    if k == 2 { Cancel2(s, t, w); }
  }

  lemma {:induction false} Cancel0(s: bv32, t: bv32, w: bv32)
    ensures Mix(s, w) == Mix(t, w) ==> s >> 8 == t >> 8
  {
  }

  lemma {:induction false} Cancel1(s: bv32, t: bv32, w: bv32)
    ensures Mix(s, w) >> 8 == Mix(t, w) >> 8 ==> s >> 16 == t >> 16
  {
  }

  lemma {:induction false} Cancel2(s: bv32, t: bv32, w: bv32)
    ensures Mix(s, w) >> 16 == Mix(t, w) >> 16 ==> s >> 24 == t >> 24
  {
  }

  /** For each byte the step is injective in the state. */
  lemma {:induction false} StepInjective(s: bv32, t: bv32, c: bv8)
    requires Step(s, c) == Step(t, c)
    ensures s == t
  {
    hide Step, Index;
    StepBack(s, c, t, c, 0);
    SameIndex(s, c, t, c);
  }

  lemma {:induction false} SameIndex(s: bv32, c: bv8, t: bv32, d: bv8)
    requires Index(s, c) == Index(t, d)
    ensures c == d && s >> 8 == t >> 8 ==> s == t
    ensures s == t ==> c == d
  {
  }

  // ---------- The loop ----------

  /** The running state after a message. */
  function Run(crc: bv32, msg: seq<bv8>): bv32 {
    if msg == [] then crc else Step(Run(crc, msg[..|msg| - 1]), msg[|msg| - 1])
  }

  /** The complement taken before and after the loop. */
  function Complement(w: bv32): bv32 {
    w ^ 0xffffffff
  }

  const INITIAL: bv32 := 0xffffffff

  /** The checksum that s_crc32 prints. */
  function Crc(msg: seq<bv8>): bv32 {
    Complement(Run(INITIAL, msg))
  }

  /** The update loop of s_crc32. */
  method Compute(str: seq<bv8>) returns (result: bv32)
    ensures result == Crc(str)
  {
    hide Step, Complement;
    InitialIs();
    var crcinit: bv32 := 0;
    var crc := Complement(crcinit);
    var nr, p := |str|, 0;
    while nr > 0
      invariant nr + p == |str| && nr >= 0 && p >= 0
      invariant crc == Run(INITIAL, str[..p])
    {
      nr := nr - 1;
      assert str[..p + 1][..p] == str[..p];
      crc := Step(crc, str[p]);
      p := p + 1;
    }
    assert str[..p] == str;
    result := Complement(crc);
  }

  lemma {:induction false} InitialIs()
    ensures Complement(0) == INITIAL
  {
  }

  lemma {:induction false} RunAppend(crc: bv32, a: seq<bv8>, b: seq<bv8>)
    ensures Run(crc, a + b) == Run(Run(crc, a), b)
  {
    hide Step;
    if b == [] {
      assert a + b == a;
    } else {
      RunAppend(crc, a, b[..|b| - 1]);
      assert (a + b)[..|a + b| - 1] == a + b[..|b| - 1];
    }
  }

  lemma {:induction false} RunInjective(s: bv32, t: bv32, msg: seq<bv8>)
    requires Run(s, msg) == Run(t, msg)
    ensures s == t
  {
    hide Step;
    if msg != [] {
      var m0 := msg[..|msg| - 1];
      StepInjective(Run(s, m0), Run(t, m0), msg[|msg| - 1]);
      RunInjective(s, t, m0);
    }
  }

  /** From one state, up to four steps show all their bytes: even with `k` bytes of the result unknown, as long as
      no more than four bytes are involved. */
  lemma {:induction false} WindowShows(crc: bv32, v: seq<bv8>, w: seq<bv8>, k: nat)
    requires |v| == |w| && |v| + k <= 4 && AgreeAbove(Run(crc, v), Run(crc, w), k)
    ensures v == w
  {
    hide Step, Index, AgreeAbove;
    if v != [] {
      var v0, w0 := v[..|v| - 1], w[..|w| - 1];
      var c, d := v[|v| - 1], w[|w| - 1];
      StepBack(Run(crc, v0), c, Run(crc, w0), d, k);
      WindowShows(crc, v0, w0, k + 1);
      SameIndex(Run(crc, v0), c, Run(crc, w0), d);
      assert v == v0 + [c] && w == w0 + [d];
    }
  }

  /** Error detection: messages of any length that differ only inside one window of at most four bytes have
      different checksums. */
  lemma {:induction false} BurstDetected(before: seq<bv8>, v: seq<bv8>, w: seq<bv8>, after: seq<bv8>)
    requires |v| == |w| <= 4 && v != w
    ensures Crc(before + v + after) != Crc(before + w + after)
  {
    hide Run, Crc, AgreeAbove;
    RunAppend(INITIAL, before + v, after);
    RunAppend(INITIAL, before + w, after);
    RunAppend(INITIAL, before, v);
    RunAppend(INITIAL, before, w);
    var s, t := Run(INITIAL, before + v), Run(INITIAL, before + w);
    if Crc(before + v + after) == Crc(before + w + after) {
      SameCrc(before + v + after, before + w + after);
      RunInjective(s, t, after);
      AgreeAll(s, t);
      WindowShows(Run(INITIAL, before), v, w, 0);
    }
  }

  lemma {:induction false} SameCrc(v: seq<bv8>, w: seq<bv8>)
    requires Crc(v) == Crc(w)
    ensures Run(INITIAL, v) == Run(INITIAL, w)
  {
    hide Run, Complement;
    ComplementDistinct(Run(INITIAL, v), Run(INITIAL, w));
  }

  lemma {:induction false} ComplementDistinct(s: bv32, t: bv32)
    requires Complement(s) == Complement(t)
    ensures s == t
  {
  }

  lemma {:induction false} AgreeAll(s: bv32, t: bv32)
    requires s == t
    ensures AgreeAbove(s, t, 0)
  {
  }
}
