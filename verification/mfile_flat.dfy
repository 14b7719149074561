/** The flat file that a list of blocks stands for: offsets into the concatenation of c/lib/mfile/mfile.c's blocks. */
module MfileFlat {
  import opened Bytes

  type Chunks = seq<seq<byte>>

  function NotNegative(x: int): nat {
    if x < 0 then 0 else x
  }

  function Least(x: int, y: int): int {
    if x <= y then x else y
  }

  /** The offset of the first byte of chunk `i`. */
  function Start(chunks: Chunks, i: nat): nat
    requires i <= |chunks|
  {
    |Concat(chunks[..i])|
  }

  lemma {:induction false} StartFirst(chunks: Chunks)
    ensures Start(chunks, 0) == 0
  {
  }

  lemma {:induction false} StartNext(chunks: Chunks, i: nat)
    requires i < |chunks|
    ensures Start(chunks, i + 1) == Start(chunks, i) + |chunks[i]|
  {
    ConcatSnoc(chunks, i);
  }

  lemma {:induction false} StartLast(chunks: Chunks)
    ensures Start(chunks, |chunks|) == |Concat(chunks)|
  {
    assert chunks[..|chunks|] == chunks;
  }

  lemma {:induction false} StartMono(chunks: Chunks, i: nat, j: nat)
    requires i <= j <= |chunks|
    ensures Start(chunks, i) <= Start(chunks, j)
  {
    hide Start;
    if i < j {
      StartMono(chunks, i, j - 1);
      StartNext(chunks, j - 1);
    }
  }

  /** The bytes of chunk `i` in the file. */
  lemma {:induction false} ChunkAt(chunks: Chunks, i: nat, a: nat, b: nat)
    requires i < |chunks| && a <= b <= |chunks[i]|
    ensures Start(chunks, i) + b <= |Concat(chunks)|
    ensures Concat(chunks)[Start(chunks, i) + a..Start(chunks, i) + b] == chunks[i][a..b]
  {
    hide Concat;
    ConcatSnoc(chunks, i);
    assert chunks == chunks[..i + 1] + chunks[i + 1..];
    ConcatAppend(chunks[..i + 1], chunks[i + 1..]);
    var s := Concat(chunks[..i + 1]);
    SliceLeft(s, Concat(chunks[i + 1..]), Start(chunks, i) + a, Start(chunks, i) + b);
    SliceRight(Concat(chunks[..i]), chunks[i], Start(chunks, i) + a, Start(chunks, i) + b);
  }

  /** More bytes in the last chunk. */
  lemma {:induction false} LastGrows(chunks: Chunks, part: seq<byte>)
    requires |chunks| > 0
    ensures Concat(chunks[|chunks| - 1 := chunks[|chunks| - 1] + part]) == Concat(chunks) + part
  {
    var n := |chunks| - 1;
    var chunks' := chunks[n := chunks[n] + part];
    ConcatSnoc(chunks, n);
    ConcatSnoc(chunks', n);
    assert chunks[..n + 1] == chunks && chunks'[..n + 1] == chunks' && chunks'[..n] == chunks[..n];
    assert Concat(chunks[..n]) + (chunks[n] + part) == Concat(chunks[..n]) + chunks[n] + part;
  }

  lemma {:induction false} NewLast(chunks: Chunks)
    ensures Concat(chunks + [[]]) == Concat(chunks)
  {
    var none: Chunks := [[]];
    ConcatAppend(chunks, none);
    assert Concat(none) == none[0] + Concat(none[1..]);
    assert Concat(chunks) + [] == Concat(chunks);
  }

  /** `pos` is where a block ends and another one begins. */
  ghost predicate Boundary(chunks: Chunks, pos: int) {
    exists k :: 0 < k < |chunks| && Start(chunks, k) == pos
  }

  ghost predicate AllNonEmpty(chunks: Chunks) {
    forall i :: 0 <= i < |chunks| ==> |chunks[i]| > 0
  }

  lemma {:induction false} MostNonEmpty(chunks: Chunks)
    requires chunks != [] && AllNonEmpty(chunks)
    ensures AllNonEmpty(chunks[..|chunks| - 1])
  {
  }

  lemma {:induction false} StartStrict(chunks: Chunks, i: nat, j: nat)
    requires i < j <= |chunks| && AllNonEmpty(chunks)
    ensures Start(chunks, i) < Start(chunks, j)
  {
    hide Start;
    StartNext(chunks, i);
    StartMono(chunks, i + 1, j);
  }

  /** Where the walk of mseek_pos stops, only the last byte of a block that is not the last one is a boundary. */
  lemma {:induction false} BoundaryIs(chunks: Chunks, k: nat, q: nat)
    requires AllNonEmpty(chunks) && k < |chunks| && q <= |chunks[k]| && (k == 0 || 0 < q)
    ensures Boundary(chunks, Start(chunks, k) + q) <==> q == |chunks[k]| && k + 1 < |chunks|
    ensures Start(chunks, k) + q <= |Concat(chunks)| && (q == |chunks[k]| ==> 0 < q)
    ensures Start(chunks, k) + q == |Concat(chunks)| <==> q == |chunks[k]| && k + 1 == |chunks|
  {
    hide Start;
    var pos := Start(chunks, k) + q;
    StartNext(chunks, k);
    StartFirst(chunks);
    StartLast(chunks);
    if k + 1 < |chunks| { StartStrict(chunks, k + 1, |chunks|); }
    forall j | 0 < j < |chunks| && j != k + 1 ensures Start(chunks, j) != pos {
      if j < k { StartStrict(chunks, j, k); }
      if j > k + 1 { StartStrict(chunks, k + 1, j); }
    }
  }

  lemma {:induction false} NoBoundary(chunks: Chunks, pos: int)
    requires pos >= |Concat(chunks)| && AllNonEmpty(chunks)
    ensures !Boundary(chunks, pos)
  {
    hide Start;
    forall j | 0 < j < |chunks| ensures Start(chunks, j) != pos {
      StartStrict(chunks, j, |chunks|);
      StartLast(chunks);
    }
  }

  lemma {:induction false} NoBoundaryAtZero(chunks: Chunks)
    requires AllNonEmpty(chunks)
    ensures !Boundary(chunks, 0)
  {
    hide Start;
    forall j | 0 < j < |chunks| ensures Start(chunks, j) != 0 {
      StartStrict(chunks, 0, j);
    }
  }

  /** Where the bytes of chunk `k` end. */
  lemma {:induction false} BlockEnd(chunks: Chunks, k: nat)
    requires k < |chunks|
    ensures Start(chunks, k + 1) == Start(chunks, k) + |chunks[k]| <= |Concat(chunks)|
    ensures k + 1 == |chunks| ==> Start(chunks, k + 1) == |Concat(chunks)|
  {
    hide Start, Concat;
    StartNext(chunks, k);
    StartLast(chunks);
    StartMono(chunks, k + 1, |chunks|);
  }

  /** Some more bytes of the file behind those already delivered. */
  lemma {:induction false} Delivered(file: seq<byte>, off: nat, d: seq<byte>, d': seq<byte>, r: nat, got: nat)
    requires off + r + got <= |file| && r + got <= |d| == |d'|
    requires d[..r] == file[off..off + r]
    requires d'[..r] == d[..r] && d'[r..r + got] == file[off + r..off + r + got] && d'[r + got..] == d[r + got..]
    ensures d'[..r + got] == file[off..off + r + got]
  {
    assert d'[..r + got] == d'[..r] + d'[r..r + got];
    assert file[off..off + r] + file[off + r..off + r + got] == file[off..off + r + got];
  }

  lemma {:induction false} SuffixKept(a: seq<byte>, b: seq<byte>, r: nat, got: nat)
    requires r + got <= |a| == |b| && a[r..] == b[r..]
    ensures a[r + got..] == b[r + got..]
  {
    assert a[r..][got..] == a[r + got..] && b[r..][got..] == b[r + got..];
  }

  // ---------- Reading in pieces ----------

  /** A call of mread for so many bytes, or of mgetc. */
  datatype Request = Piece(len: int) | Character

  function Asked(request: Request): nat {
    match request case Piece(len) => NotNegative(len) case Character => 1
  }

  /** The number of bytes that the calls ask for. */
  function Total(requests: seq<Request>): nat {
    if requests == [] then 0 else Total(requests[..|requests| - 1]) + Asked(requests[|requests| - 1])
  }

  /** Of the bytes `rest`, calls for `total` bytes have delivered `got`, and `t` is left: all of them once and in order,
      and only NULs behind the end of the file. */
  ghost predicate InOrder(rest: seq<byte>, got: seq<byte>, t: seq<byte>, total: nat) {
    var k := if total <= |rest| then total else |rest|;
    && k <= |got| && got[..k] == rest[..k] && t == rest[k..]
    && (t != [] ==> |got| == k) && forall i :: k <= i < |got| ==> got[i] == NUL
  }

  /** What a call for `want` bytes makes of the bytes `t` that are left: `more` is delivered, `t'` is left. */
  ghost predicate Answered(t: seq<byte>, want: nat, more: seq<byte>, t': seq<byte>) {
    if want <= |t| then more == t[..want] && t' == t[want..]
    else t <= more && t' == [] && forall i :: |t| <= i < |more| ==> more[i] == NUL
  }

  lemma {:induction false} StillInOrder(rest: seq<byte>, got: seq<byte>, t: seq<byte>, total: nat,
                                        more: seq<byte>, want: nat, t': seq<byte>)
    requires InOrder(rest, got, t, total) && Answered(t, want, more, t')
    ensures InOrder(rest, got + more, t', total + want)
  {
    var k := if total <= |rest| then total else |rest|;
    var j := if want <= |t| then want else |t|;
    assert t' == rest[k + j..];
    if t != [] {
      assert rest[..k] + t[..j] == rest[..k + j];
      assert (got + more)[..k + j] == got + more[..j];
    } else {
      assert (got + more)[..k] == got[..k];
    }
  }

  lemma {:induction false} NothingAsked(rest: seq<byte>, requests: seq<Request>)
    ensures InOrder(rest, [], rest, Total(requests[..0]))
  {
  }

  lemma {:induction false} AskedMore(requests: seq<Request>, i: nat)
    requires i < |requests|
    ensures Total(requests[..i + 1]) == Total(requests[..i]) + Asked(requests[i])
  {
    assert requests[..i + 1][..i] == requests[..i];
  }
}
