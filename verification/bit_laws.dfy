/** 32-bit words: rotation, addition, and identities of the operators. */
module BitLaws {
  function Rotl(w: bv32, n: nat): bv32
    requires 0 < n < 32
  {
    (w << n) | (w >> (32 - n))
  }

  function Plus(x: bv32, y: bv32): bv32 { x + y }

  lemma {:induction false} ChoiceByXor(x: bv32, y: bv32, z: bv32)
    ensures z ^ (x & (y ^ z)) == (x & y) ^ (!x & z)
  {
  }

  lemma {:induction false} ChoiceByOr(x: bv32, y: bv32, z: bv32)
    ensures z ^ (x & (y ^ z)) == (x & y) | (!x & z)
  {
  }

  lemma {:induction false} ChoiceByLast(x: bv32, y: bv32, z: bv32)
    ensures y ^ (z & (x ^ y)) == (x & z) | (y & !z)
  {
  }

  lemma {:induction false} Majority(x: bv32, y: bv32, z: bv32)
    ensures (x & y) | (z & (x | y)) == (x & y) ^ (x & z) ^ (y & z)
  {
  }
}
