/** Hashing by 64-byte blocks: what the streaming code of c/src/code/sha1.c and c/src/code/md5.c has to amount to. */
module Blocks {
  import opened Bytes

  type Block = b: seq<byte> | |b| == 64 witness seq(64, _ => 0)

  /** The state after all complete blocks of `m`. */
  function Fold<S>(f: (S, Block) -> S, s: S, m: seq<byte>): S {
    if |m| < 64 then s else Fold(f, f(s, m[..64]), m[64..])
  }

  lemma {:induction false} FoldAppend<S>(f: (S, Block) -> S, s: S, a: seq<byte>, b: seq<byte>)
    requires |a| % 64 == 0
    ensures Fold(f, s, a + b) == Fold(f, Fold(f, s, a), b)
  {
    if |a| < 64 {
      assert a + b == b;
    } else {
      assert (a + b)[..64] == a[..64] && (a + b)[64..] == a[64..] + b;
      FoldAppend(f, f(s, a[..64]), a[64..], b);
    }
  }

  /** One more block. */
  lemma {:induction false} FoldBlock<S>(f: (S, Block) -> S, s: S, a: seq<byte>, b: Block)
    requires |a| % 64 == 0
    ensures Fold(f, s, a + b) == f(Fold(f, s, a), b)
  {
    FoldAppend(f, s, a, b);
    assert b[..64] == b && b[64..] == [];
  }

  /** An incomplete block at the end does not count. */
  lemma {:induction false} FoldRest<S>(f: (S, Block) -> S, s: S, a: seq<byte>, b: seq<byte>)
    requires |a| % 64 == 0 && |b| < 64
    ensures Fold(f, s, a + b) == Fold(f, s, a)
  {
    FoldAppend(f, s, a, b);
  }

  /** The bytes of `m` behind its last complete block. */
  function Tail(m: seq<byte>): (t: seq<byte>)
    ensures |t| == |m| % 64
  {
    m[|m| - |m| % 64..]
  }

  /** The number of zero bytes of the padding: with them, the byte 0x80 and eight bytes of length, blocks are whole. */
  function ZeroCount(n: nat): nat {
    (119 - n % 64) % 64
  }

  /** The message with its padding; `length` is the eight bytes that state its length. */
  function Padded(m: seq<byte>, length: seq<byte>): (p: seq<byte>)
    requires |length| == 8
    ensures |p| % 64 == 0
  {
    m + [0x80] + seq(ZeroCount(|m|), _ => 0) + length
  }

  /** The part of `m` in front of its tail. */
  function Whole(m: seq<byte>): (w: seq<byte>)
    ensures |w| % 64 == 0 && w + Tail(m) == m
  {
    m[..|m| - |m| % 64]
  }

  /** A message that ends in whole blocks and a short rest. */
  lemma {:induction false} TailIs(a: seq<byte>, b: seq<byte>)
    requires |a| % 64 == 0 && |b| < 64
    ensures Whole(a + b) == a && Tail(a + b) == b
  {
    assert |a + b| % 64 == |b|;
  }

  lemma {:induction false} FoldWhole<S>(f: (S, Block) -> S, s: S, m: seq<byte>)
    ensures Fold(f, s, m) == Fold(f, s, Whole(m))
  {
    hide Fold, Whole, Tail;
    FoldRest(f, s, Whole(m), Tail(m));
  }

  /** Bytes that do not complete a block only join the tail. */
  lemma {:induction false} RestKept<S>(f: (S, Block) -> S, s: S, m: seq<byte>, rest: seq<byte>)
    requires |m| % 64 + |rest| < 64
    ensures Fold(f, s, m + rest) == Fold(f, s, m) && Tail(m + rest) == Tail(m) + rest
  {
    hide Fold, Whole, Tail;
    var w, t := Whole(m), Tail(m);
    assert w + t == m && w + (t + rest) == w + t + rest;
    TailIs(w, t + rest);
    FoldWhole(f, s, m);
    FoldWhole(f, s, m + rest);
  }

  /** Bytes up to the end of a block. */
  lemma {:induction false} FoldJoined<S>(f: (S, Block) -> S, s: S, m: seq<byte>, data: seq<byte>)
    requires |m + data| % 64 == 0
    ensures Fold(f, s, m + data) == Fold(f, Fold(f, s, m), Tail(m) + data)
  {
    hide Fold, Whole, Tail;
    FoldWhole(f, s, m);
    assert m + data == Whole(m) + (Tail(m) + data);
    FoldAppend(f, s, Whole(m), Tail(m) + data);
  }

  lemma {:induction false} FoldFilled<S>(f: (S, Block) -> S, s: S, m: seq<byte>, part: seq<byte>)
    requires |part| == 64 - |m| % 64
    ensures Fold(f, s, m + part) == f(Fold(f, s, m), Tail(m) + part)
  {
    hide Fold, Whole, Tail;
    FoldWhole(f, s, m);
    assert m + part == Whole(m) + (Tail(m) + part);
    FoldBlock(f, s, Whole(m), Tail(m) + part);
  }

  lemma {:induction false} FoldNone<S>(f: (S, Block) -> S, s: S)
    ensures Fold(f, s, []) == s
  {
  }

  /** memcpy into the block buffer. */
  method CopyInto(buffer: array<byte>, at: nat, src: seq<byte>)
    requires at + |src| <= buffer.Length
    modifies buffer
    ensures buffer[..at] == old(buffer[..at]) && buffer[at..at + |src|] == src
    ensures buffer[at + |src|..] == old(buffer[at + |src|..])
  {
    forall k | 0 <= k < |src| { buffer[at + k] := src[k]; }
  }

  /** memset to zero of a part of the block buffer. */
  method ZeroFill(buffer: array<byte>, at: nat, n: nat)
    requires at + n <= buffer.Length
    modifies buffer
    ensures buffer[..at] == old(buffer[..at]) && forall k :: at <= k < at + n ==> buffer[k] == 0
    ensures buffer[at + n..] == old(buffer[at + n..])
  {
    forall k | 0 <= k < n { buffer[at + k] := 0; }
  }
}
