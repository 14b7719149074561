/** c/lib/scdb/buffer.c: the output buffer, over a file whose write operation may write less than it is given. */
module ScdbBuffer {
  import opened Bytes

  /** `b` with `data` written at offset `o`; a gap before the offset reads as zeros. */
  function Overwrite(b: seq<byte>, o: nat, data: seq<byte>): seq<byte> {
    if data == [] then b
    else
      var padded := if |b| < o then b + seq(o - |b|, _ => NUL) else b;
      padded[..o] + data + if o + |data| <= |padded| then padded[o + |data|..] else []
  }

  lemma {:induction false} OverwriteNothing(b: seq<byte>, o: nat)
    ensures Overwrite(b, o, []) == b
  {
  }

  /** Writing in two parts is writing once. */
  lemma {:induction false} OverwriteTwice(b: seq<byte>, o: nat, d: seq<byte>, e: seq<byte>)
    ensures Overwrite(Overwrite(b, o, d), o + |d|, e) == Overwrite(b, o, d + e)
  {
    if d == [] {
      assert d + e == e;
    } else if e == [] {
      assert d + e == d;
    } else {
      var once, twice := Overwrite(b, o, d + e), Overwrite(Overwrite(b, o, d), o + |d|, e);
      assert |once| == |twice|;
      assert forall i :: 0 <= i < |once| ==> once[i] == twice[i];
    }
  }

  /** What one call of the write operation does: write some of the bytes (perhaps none), be interrupted, or fail. */
  datatype Outcome = Wrote(n: nat) | Interrupted | Failed

  /** A file open for writing. `plan` is what the next calls of write will do; after it, calls write everything. */
  class File {
    var bytes: seq<byte>
    var off: nat
    var plan: seq<Outcome>

    constructor (plan: seq<Outcome>)
      ensures bytes == [] && off == 0 && this.plan == plan
    {
      bytes, off, this.plan := [], 0, plan;
    }

    method Seek(o: nat)
      modifies this`off
      ensures off == o
    {
      off := o;
    }

    /** One call of write: -1 with `interrupted` for EINTR, -1 for a failure, otherwise the number of bytes written. */
    method Write(data: seq<byte>) returns (w: int, interrupted: bool)
      modifies this
      ensures plan == if old(plan) == [] then [] else old(plan)[1..]
      ensures 0 <= w <= |data| || w == -1
      ensures w >= 0 ==> bytes == Overwrite(old(bytes), old(off), data[..w]) && off == old(off) + w
      ensures w == -1 ==> bytes == old(bytes) && off == old(off) && old(plan) != []
      ensures w == -1 ==> interrupted == old(plan)[0].Interrupted? && (!interrupted ==> old(plan)[0] == Failed)
      ensures old(plan) == [] ==> w == |data|
    {
      var next := if plan == [] then Wrote(|data|) else plan[0];
      plan := if plan == [] then [] else plan[1..];
      interrupted := next.Interrupted?;
      if !next.Wrote? { return -1, interrupted; }
      w := if next.n < |data| then next.n else |data|;
      bytes := Overwrite(bytes, off, data[..w]);
      off := off + w;
    }
  }

  /** allwrite: repeats write until everything is out, retrying after an interruption. */
  method AllWrite(file: File, data: seq<byte>) returns (r: int)
    modifies file
    ensures r == 0 || r == -1
    ensures r == 0 ==>
      file.bytes == Overwrite(old(file.bytes), old(file.off), data) && file.off == old(file.off) + |data|
    ensures Failed !in old(file.plan) ==> r == 0 && Failed !in file.plan
  {
    hide Overwrite;
    var buf := data;
    ghost var done: seq<byte> := [];
    OverwriteNothing(file.bytes, file.off);
    while |buf| > 0
      invariant data == done + buf
      invariant file.bytes == Overwrite(old(file.bytes), old(file.off), done) && file.off == old(file.off) + |done|
      invariant Failed !in old(file.plan) ==> Failed !in file.plan
      decreases |file.plan|, |buf|
    {
      var w, interrupted := file.Write(buf);
      if w == -1 {
        if interrupted { continue; }
        return -1;
      }
      OverwriteTwice(old(file.bytes), old(file.off), done, buf[..w]);
      assert done + buf == done + buf[..w] + buf[w..];
      done := done + buf[..w];
      buf := buf[w..];
    }
    assert data == done;
    return 0;
  }

  class Buffer {
    const file: File
    const x: array<byte>
    var p: nat
    /** Everything put into the buffer since the file was positioned at `start`, and the file as it was then. */
    ghost var put: seq<byte>
    ghost var base: seq<byte>
    ghost var start: nat

    /** What was put is what has reached the file plus what is in the buffer. */
    ghost predicate Valid()
      reads this, file, x
    {
      && x.Length == 8192 && p <= x.Length && p <= |put|
      && x[..p] == put[|put| - p..]
      && file.bytes == Overwrite(base, start, put[..|put| - p])
      && file.off == start + |put| - p
    }

    constructor (file: File)
      ensures this.file == file && fresh(x) && Valid()
      ensures put == [] && base == file.bytes && start == file.off
    {
      this.file := file;
      x := new byte[8192];
      p, put, base, start := 0, [], file.bytes, file.off;
    }

    /** buffer_flush */
    method Flush() returns (r: int)
      requires p <= x.Length
      modifies this`p, file
      ensures p == 0 && (r == 0 || r == -1)
      ensures r == 0 ==>
        file.bytes == Overwrite(old(file.bytes), old(file.off), old(x[..p])) && file.off == old(file.off) + old(p)
      ensures r == 0 && old(Valid()) ==> Valid()
      ensures Failed !in old(file.plan) ==> r == 0 && Failed !in file.plan
    {
      hide Overwrite;
      var n := p;
      if n == 0 {
        assert x[..0] == [];
        OverwriteNothing(file.bytes, file.off);
        return 0;
      }
      p := 0;
      r := AllWrite(file, x[..n]);
      if r == 0 && old(Valid()) {
        OverwriteTwice(base, start, put[..|put| - n], x[..n]);
        assert put[..|put| - n] + x[..n] == put == put[..|put| - 0];
      }
    }

    /** Copies `data` behind the bytes in the buffer. */
    method Fill(data: seq<byte>)
      requires Valid() && p + |data| <= x.Length
      modifies this`p, this`put, x
      ensures Valid() && put == old(put) + data && p == old(p) + |data|
    {
      hide Overwrite;
      forall i | 0 <= i < |data| { x[p + i] := data[i]; }
      assert x[..p] == old(x[..p]);
      assert x[..p + |data|] == x[..p] + data;
      p := p + |data|;
      put := put + data;
      assert put[..|put| - p] == old(put[..|put| - p]);
      assert put[|put| - p..] == old(put[|put| - p..]) + data;
    }

    /** buffer_putalign: fills the buffer up before every flush. */
    method PutAlign(data: seq<byte>) returns (r: int)
      requires Valid()
      modifies this`p, this`put, x, file
      ensures r == 0 || r == -1
      ensures r == 0 ==> Valid() && put == old(put) + data
      ensures Failed !in old(file.plan) ==> r == 0 && Failed !in file.plan
    {
      hide Overwrite;
      var buf := data;
      while |buf| > x.Length - p
        invariant Valid()
        invariant put + buf == old(put) + data
        invariant Failed !in old(file.plan) ==> Failed !in file.plan
        decreases |buf|, p
      {
        var n := x.Length - p;
        Fill(buf[..n]);
        buf := buf[n..];
        r := Flush();
        if r == -1 { return -1; }
      }
      Fill(buf);
      return 0;
    }

    /** buffer_putflush */
    method PutFlush(data: seq<byte>) returns (r: int)
      requires p <= x.Length
      modifies this`p, file
      ensures r == 0 || r == -1
      ensures r == 0 ==>
        file.bytes == Overwrite(Overwrite(old(file.bytes), old(file.off), old(x[..p])), old(file.off) + old(p), data)
      ensures Failed !in old(file.plan) ==> r == 0
    {
      hide Overwrite;
      r := Flush();
      if r == -1 { return; }
      r := AllWrite(file, data);
    }
  }
}
