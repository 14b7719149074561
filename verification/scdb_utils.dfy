/** c/lib/scdb/utils.c: little-endian packing and the key hash. */
module ScdbUtils {
  import opened Bytes

  function Pack(u: nat): (s: seq<byte>)
    ensures |s| == 4
  {
    [(u % 256) as byte, (u / 256 % 256) as byte, (u / 65536 % 256) as byte, (u / 16777216 % 256) as byte]
  }

  /** The value of the four bytes from offset `i`. */
  function Unpack(s: seq<byte>, i: nat): (u: nat)
    requires i + 4 <= |s|
    ensures u < TWO_32
  {
    ((s[i + 3] as nat * 256 + s[i + 2] as nat) * 256 + s[i + 1] as nat) * 256 + s[i] as nat
  }

  lemma {:induction false} UnpackPack(u: nat, s: seq<byte>, i: nat)
    requires u < TWO_32 && i + 4 <= |s| && s[i..i + 4] == Pack(u)
    ensures Unpack(s, i) == u
  {
    forall k | 0 <= k < 4 ensures s[i + k] == Pack(u)[k] {
      assert s[i + k] == s[i..i + 4][k];
    }
    assert s[i] as nat == u % 256;
    assert s[i + 1] as nat == u / 256 % 256;
    assert s[i + 2] as nat == u / 65536 % 256;
    assert s[i + 3] as nat == u / 16777216 % 256;
    PackDigits(u);
  }

  lemma {:induction false} PackDigits(u: nat)
    requires u < TWO_32
    ensures ((u / 16777216 % 256 * 256 + u / 65536 % 256) * 256 + u / 256 % 256) * 256 + u % 256 == u
  {
    assert u / 65536 == u / 256 / 256;
    assert u / 16777216 == u / 65536 / 256;
  }

  lemma {:induction false} Digits(a: nat, b: nat, c: nat, d: nat)
    requires a < 256 && b < 256 && c < 256 && d < 256
    ensures
      var u := ((d * 256 + c) * 256 + b) * 256 + a;
      u % 256 == a && u / 256 % 256 == b && u / 65536 % 256 == c && u / 16777216 % 256 == d
  {
    var v2 := d * 256 + c;
    var v1 := v2 * 256 + b;
    var u := v1 * 256 + a;
    assert u / 256 == v1 && v1 / 256 == v2;
    assert u / 65536 == u / 256 / 256;
    assert u / 16777216 == u / 65536 / 256;
  }

  lemma {:induction false} PackUnpack(s: seq<byte>)
    requires |s| == 4
    ensures Pack(Unpack(s, 0)) == s
  {
    Digits(s[0] as nat, s[1] as nat, s[2] as nat, s[3] as nat);
    var p := Pack(Unpack(s, 0));
    assert p[0] == (s[0] as nat) as byte == s[0];
    assert p[1] == (s[1] as nat) as byte == s[1];
    assert p[2] == (s[2] as nat) as byte == s[2];
    assert p[3] == (s[3] as nat) as byte == s[3];
  }

  function HashAdd(h: bv32, c: byte): bv32 {
    (h + (h << 5)) ^ (c as bv32)
  }

  const HASHSTART: bv32 := 5381

  function Hash(key: seq<byte>): bv32 {
    if key == [] then HASHSTART else HashAdd(Hash(key[..|key| - 1]), key[|key| - 1])
  }

  /** The key hash as the unsigned number the tables store. */
  function HashOf(key: seq<byte>): (h: nat)
    ensures h < TWO_32
  {
    Hash(key) as nat
  }

  lemma {:induction false} AddIs(h: bv32, c: byte)
    ensures HashAdd(h, c) == (33 * h) ^ (c as bv32)
  {
  }

  /** The hash begins with 5381, and each byte joins 33 times what there is, modulo 2^32. */
  lemma {:induction false} HashIs(key: seq<byte>, c: byte)
    ensures HashOf([]) == 5381 && Hash(key + [c]) == (33 * Hash(key)) ^ (c as bv32)
  {
    hide HashAdd;
    AddIs(Hash(key), c);
    assert (key + [c])[..|key|] == key;
  }

  /** uint32_pack: four shifts write the bytes of `u`, least significant first. */
  method Uint32Pack(s: array<byte>, at: nat, u: nat)
    requires at + 4 <= s.Length
    modifies s
    ensures s[at..at + 4] == Pack(u)
    ensures s[..at] == old(s[..at]) && s[at + 4..] == old(s[at + 4..])
  {
    var v := u;
    s[at] := (v % 256) as byte;
    v := v / 256;
    s[at + 1] := (v % 256) as byte;
    v := v / 256;
    s[at + 2] := (v % 256) as byte;
    s[at + 3] := (v / 256 % 256) as byte;
    assert u / 65536 == u / 256 / 256 && u / 16777216 == u / 65536 / 256;
  }

  /** scdb_hash: the loop over the key. */
  method ScdbHash(buf: seq<byte>) returns (h: nat)
    ensures h == HashOf(buf)
  {
    var v := HASHSTART;
    var i := 0;
    while i < |buf|
      invariant 0 <= i <= |buf|
      invariant v == Hash(buf[..i])
    {
      assert buf[..i + 1][..i] == buf[..i];
      v := HashAdd(v, buf[i]);
      i := i + 1;
    }
    assert buf[..i] == buf;
    h := v as nat;
  }
}
