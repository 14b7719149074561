/** Values that may be absent. */
module Options {
  datatype Option<+T> = None | Some(value: T)

  /** `s` in front of the sequence, if there is one. */
  function Append<T>(s: seq<T>, x: Option<seq<T>>): Option<seq<T>> {
    match x case None => None case Some(t) => Some(s + t)
  }
}

/** Bytes, and the 32-bit unsigned arithmetic that the C code performs on `uint32_t`. */
module Bytes {

  type byte = x: int | 0 <= x < 256

  const TWO_32: nat := 0x1_0000_0000
  const TWO_64: nat := 0x1_0000_0000_0000_0000

  /** The value that a `uint32_t` keeps of the mathematical result `x`. */
  function Wrap32(x: int): (r: nat)
    ensures r < TWO_32
    ensures 0 <= x < TWO_32 ==> r == x
  {
    x % TWO_32
  }

  lemma {:induction false} WrapSum(x: nat, c: nat, y: nat)
    ensures ((x % TWO_32 + c) % TWO_32 + y) % TWO_32 == (x + y + c) % TWO_32
  {
  }

  /** Taking off one byte after the other. */
  lemma {:induction false} ByteByByte(v: nat)
    ensures v / 256 / 256 == v / 0x1_0000 && v / 256 / 256 / 256 == v / 0x100_0000
    ensures v / 256 / 256 / 256 / 256 == v / TWO_32
  {
  }

  /** The bytes of the low word of a number made of two words. */
  lemma {:induction false} LowBytes(v: nat, c0: nat, c1: nat)
    requires c0 < TWO_32 && v == c0 + TWO_32 * c1
    ensures v / TWO_32 == c1 && v % 256 == c0 % 256 && v / 0x100 % 256 == c0 / 0x100 % 256
    ensures v / 0x1_0000 % 256 == c0 / 0x1_0000 % 256 && v / 0x100_0000 % 256 == c0 / 0x100_0000 % 256
  {
    SameByte(c0, 0x100_0000 * c1);
    SameByte(c0 / 0x100, 0x1_0000 * c1);
    SameByte(c0 / 0x1_0000, 0x100 * c1);
    SameByte(c0 / 0x100_0000, c1);
    assert v / 0x100 == c0 / 0x100 + 256 * (0x1_0000 * c1);
    assert v / 0x1_0000 == c0 / 0x1_0000 + 256 * (0x100 * c1);
    assert v / 0x100_0000 == c0 / 0x100_0000 + 256 * c1;
  }

  lemma {:induction false} SameByte(q: nat, m: nat)
    ensures (q + 256 * m) % 256 == q % 256
  {
  }

  const NUL: byte := 0
  const LF: byte := 10
  const CR: byte := 13

  /** The bytes of a text. */
  function Ascii(text: string): (r: seq<byte>)
    requires forall i :: 0 <= i < |text| ==> text[i] as int < 128
    ensures |r| == |text| && forall i :: 0 <= i < |r| ==> r[i] == text[i] as int
  {
    seq(|text|, i requires 0 <= i < |text| => text[i] as int)
  }

  ghost predicate NoNul(s: seq<byte>) {
    forall i :: 0 <= i < |s| ==> s[i] != NUL
  }

  /** A C string: the bytes before the first NUL. */
  function TextOf(s: seq<byte>): (r: seq<byte>)
    ensures |r| <= |s|
  {
    if s == [] || s[0] == NUL then [] else [s[0]] + TextOf(s[1..])
  }

  lemma {:induction false} TextOfIs(s: seq<byte>)
    ensures
      var t := TextOf(s);
      t == s[..|t|] && NoNul(t) && (|t| < |s| ==> s[|t|] == NUL)
  {
    if s != [] && s[0] != NUL {
      TextOfIs(s[1..]);
      assert s[..|TextOf(s)|] == [s[0]] + s[1..][..|TextOf(s[1..])|];
    }
  }

  /** Every CR begins a line end. */
  ghost predicate CrOnlyInCrlf(s: seq<byte>) {
    forall i :: 0 <= i < |s| && s[i] == CR ==> i + 1 < |s| && s[i + 1] == LF
  }

  lemma {:induction false} CrOnlyInSuffix(f: seq<byte>, m: nat)
    requires CrOnlyInCrlf(f) && m <= |f|
    ensures CrOnlyInCrlf(f[m..])
  {
    forall i | 0 <= i < |f[m..]| && f[m..][i] == CR ensures i + 1 < |f[m..]| && f[m..][i + 1] == LF {
      assert f[m + i] == CR;
    }
  }

  /** Writes a few bytes and moves on. */
  method Put(ret: array<byte>, at: nat, out: seq<byte>) returns (d: nat)
    requires at + |out| <= ret.Length
    modifies ret
    ensures d == at + |out| && ret[..d] == old(ret[..at]) + out
  {
    forall k | 0 <= k < |out| { ret[at + k] := out[k]; }
    d := at + |out|;
    assert ret[..at] == old(ret[..at]);
    assert ret[..d] == ret[..at] + out;
  }

  /** The concatenation of all chunks. */
  function Concat<T>(chunks: seq<seq<T>>): (s: seq<T>) {
    if chunks == [] then [] else chunks[0] + Concat(chunks[1..])
  }

  lemma {:induction false} ConcatCons<T>(chunk: seq<T>, chunks: seq<seq<T>>)
    ensures Concat([chunk] + chunks) == chunk + Concat(chunks)
  {
    assert ([chunk] + chunks)[1..] == chunks;
  }

  lemma {:induction false} ConcatNone<T>(chunks: seq<seq<T>>)
    ensures Concat(chunks[..0]) == []
  {
  }

  lemma {:induction false} ConcatAppend<T>(a: seq<seq<T>>, b: seq<seq<T>>)
    ensures Concat(a + b) == Concat(a) + Concat(b)
  {
    hide Concat;
    if a == [] {
      ConcatNone(a);
      assert a[..0] == a && a + b == b;
    } else {
      ConcatAppend(a[1..], b);
      assert a == [a[0]] + a[1..] && a + b == [a[0]] + (a[1..] + b);
      ConcatCons(a[0], a[1..] + b);
      ConcatCons(a[0], a[1..]);
    }
  }

  lemma {:induction false} ConcatSnoc<T>(chunks: seq<seq<T>>, i: nat)
    requires i < |chunks|
    ensures Concat(chunks[..i + 1]) == Concat(chunks[..i]) + chunks[i]
  {
    assert chunks[..i + 1] == chunks[..i] + [chunks[i]];
    ConcatAppend(chunks[..i], [chunks[i]]);
    assert Concat([chunks[i]]) == chunks[i] + Concat([]);
  }

  lemma {:induction false} SliceOfSlice<T>(s: seq<T>, a: nat, b: nat, c: nat, d: nat)
    requires a <= b <= |s| && c <= d <= b - a
    ensures s[a..b][c..d] == s[a + c..a + d]
  {
    var x := s[a..b];
    forall i | 0 <= i < d - c ensures x[c..d][i] == s[a + c..a + d][i] {
      assert x[c..d][i] == x[c + i];
    }
  }

  lemma {:induction false} SliceWithin<T>(s: seq<T>, off: nat, part: seq<T>, a: nat, b: nat)
    requires off + |part| <= |s| && s[off..off + |part|] == part && a <= b <= |part|
    ensures s[off + a..off + b] == part[a..b]
  {
    SliceOfSlice(s, off, off + |part|, a, b);
  }

  lemma {:induction false} SliceLeft<T>(s: seq<T>, t: seq<T>, a: nat, b: nat)
    requires a <= b <= |s|
    ensures (s + t)[a..b] == s[a..b]
  {
  }

  lemma {:induction false} SliceRight<T>(s: seq<T>, t: seq<T>, a: nat, b: nat)
    requires |s| <= a <= b <= |s| + |t|
    ensures (s + t)[a..b] == t[a - |s|..b - |s|]
  {
  }
}
