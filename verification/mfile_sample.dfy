/** Programs that use a file in memory: the one of c/lib/mfile/sample.c, a copy that is read back, and two calls whose
    results one may not expect. */
module MfileSample {
  import opened Bytes
  import opened MfileFlat
  import opened MfileLines
  import opened Mfile

  /** mopen, and mwrite for each part. */
  method NewFile(blockSize: nat, parts: seq<seq<byte>>) returns (m: Mfile)
    requires |Concat(parts)| < 0x8000_0000
    ensures m.Valid() && fresh(m.repr) && m.Content() == Concat(parts) && m.ccache == LF && m.Unread()
    ensures m.blockSize == if blockSize == 0 then 8888 else blockSize
  {
    hide Mfile.Valid, Mfile.Unread, Mfile.Content, Concat;
    m := new Mfile(blockSize);
    ConcatNone(parts);
    for i := 0 to |parts|
      invariant m.Valid() && fresh(m.repr) && m.Content() == Concat(parts[..i]) && m.ccache == LF && m.Unread()
    {
      PartFits(parts, i);
      WrittenSize(m);
      var _ := m.Write(parts[i]);
    }
    assert parts[..|parts|] == parts;
  }

  lemma {:induction false} WrittenSize(m: Mfile)
    requires m.Valid()
    ensures m.totalSize == |m.Content()|
  {
  }

  lemma {:induction false} PartFits(parts: seq<seq<byte>>, i: nat)
    requires i < |parts|
    ensures Concat(parts[..i + 1]) == Concat(parts[..i]) + parts[i]
    ensures |Concat(parts[..i])| + |parts[i]| <= |Concat(parts)|
  {
    hide Concat;
    ConcatSnoc(parts, i);
    assert parts == parts[..i + 1] + parts[i + 1..];
    ConcatAppend(parts[..i + 1], parts[i + 1..]);
  }

  /** The program of sample.c with a buffer of `n` bytes: the size that it prints, and the lines. */
  method Sample(blockSize: nat, parts: seq<seq<byte>>, n: nat) returns (size: nat, lines: seq<seq<byte>>)
    requires |Concat(parts)| < 0x8000_0000 && Text(Concat(parts)) && 2 <= n
    ensures size == |Concat(parts)|
    ensures Concat(lines) <= Concat(parts)
    ensures Concat(lines) == Concat(parts) <==> AllFit(Lines(Concat(parts)), n)
    ensures lines <= Lines(Concat(parts))
  {
    hide Mfile.Valid, Mfile.Unread, Mfile.Content, Mfile.Rest, Mfile.Ready, Concat, Text, LinesTaken, Lines;
    var m := NewFile(blockSize, parts);
    size := m.Size();
    Parts(m);
    m.Seek();
    lines := m.ReadLines(n);
    LinesPrinted(Concat(parts), lines, m.Rest(), n);
  }

  /** What is printed is the text up to the first line that does not fit. */
  lemma {:induction false} LinesPrinted(all: seq<byte>, lines: seq<seq<byte>>, t: seq<byte>, n: nat)
    requires 2 <= n && LinesTaken(all, lines, t, n)
    ensures lines <= Lines(all) && Concat(lines) <= all
    ensures Concat(lines) == all <==> AllFit(Lines(all), n)
  {
    hide Lines, Concat, AllFit;
    LinesJoin(all);
    var k := |lines|;
    assert Lines(all) == lines + Lines(all)[k..];
    ConcatAppend(lines, Lines(all)[k..]);
    if lines != Lines(all) {
      var rest := Lines(all)[k..];
      ConcatCons(rest[0], rest[1..]);
      assert rest == [rest[0]] + rest[1..];
      LineNotEmpty(all, rest[0]);
    }
  }

  lemma {:induction false} LineNotEmpty(s: seq<byte>, l: seq<byte>)
    requires l in Lines(s)
    ensures l != []
    decreases |s|
  {
    hide LineLen;
    if l != s[..LineLen(s)] { LineNotEmpty(s[LineLen(s)..], l); }
  }

  lemma {:induction false} OnePart(a: seq<byte>)
    ensures Concat([a]) == a && Concat<byte>([]) == []
  {
    assert Concat([a]) == a + Concat([a][1..]);
  }

  /** mfile_copy of all of `src`. */
  method CopyWhole(dest: Mfile, src: Mfile)
    requires dest.Valid() && src.Valid() && dest.repr !! src.repr
    requires |dest.Content()| + |src.Content()| < 0x8000_0000
    modifies dest.repr, src`isEmpty, src`readBlock, src`cur, src.blocks`readCount
    ensures dest.Valid() && src.Valid() && dest.repr !! src.repr && fresh(dest.repr - old(dest.repr))
    ensures src.Content() == old(src.Content()) && dest.Content() == old(dest.Content()) + src.Content()
    ensures dest.ccache == old(dest.ccache)
  {
    hide Mfile.Core, Mfile.Content, From, RunsDry, ToInt;
    var n := src.Size();
    WholeFrom(src);
    var _ := Copy(dest, src, 0, n);
    assert src.Content()[..n] == src.Content();
  }

  lemma {:induction false} WholeFrom(m: Mfile)
    requires m.Valid()
    ensures From(m.chunks, 0) == m.Content()
  {
    hide Boundary;
    NoBoundaryAtZero(m.chunks);
  }

  lemma {:induction false} AllDeliverable(m: Mfile)
    requires m.Unread()
    ensures m.Deliverable() == m.Rest()
  {
  }

  lemma {:induction false} Parts(m: Mfile)
    requires m.Valid()
    ensures m in m.repr && forall i :: 0 <= i < |m.blocks| ==> m.blocks[i] in m.repr
  {
    m.Owned();
  }

  /** mseek, and one mread of the whole file. */
  method ReadBack(m: Mfile) returns (b: seq<byte>)
    requires m.Valid()
    modifies m`isEmpty, m`readBlock, m`cur, m.blocks`readCount
    ensures m.Valid() && b == m.Content()
  {
    hide Mfile.Valid, Mfile.Unread, Mfile.Content, Mfile.Rest, Mfile.Offset, Mfile.Deliverable;
    m.Seek();
    AllDeliverable(m);
    var n := m.Size();
    var data := new byte[n];
    Parts(m);
    var r := m.Read(data, n);
    b := data[..NotNegative(r)];
  }

  /** A file copied twice into another one, with any block sizes, and read back. */
  method Duplicate(a: seq<byte>, srcSize: nat, destSize: nat) returns (b: seq<byte>)
    requires 2 * |a| < 0x8000_0000
    ensures b == a + a
  {
    hide Mfile.Valid, Mfile.Unread, Mfile.Content, Concat;
    OnePart(a);
    var src := NewFile(srcSize, [a]);
    var dest := NewFile(destSize, []);
    Parts(src);
    CopyWhole(dest, src);
    assert fresh(dest.repr);
    Parts(src);
    CopyWhole(dest, src);
    Parts(dest);
    b := ReadBack(dest);
  }

  // ---------- Two calls ----------

  /** The boundary of two blocks: the file has two bytes, and from position 1 nothing is read. */
  method StuckAtBoundary() returns (m: Mfile, r: int)
    ensures m.Valid() && m.Content() == [7, 8] && m.Stuck() && m.Offset() == 1 && r == 0
  {
    hide Mfile.Core, Mfile.Content, Mfile.Rest, Mfile.Offset, Mfile.Deliverable, Concat, Boundary;
    m := new Mfile(1);
    var _ := m.Write([7, 8]);
    OneByteBlocks(m);
    Parts(m);
    m.SeekPos(1);
    var data := new byte[1];
    r := m.Read(data, 1);
  }

  lemma {:induction false} OneByteBlocks(m: Mfile)
    requires m.Valid() && m.blockSize == 1 && |m.Content()| == 2
    ensures Boundary(m.chunks, 1)
  {
    assert m.chunks != [] && m.Holds(0);
    StartFirst(m.chunks);
    BlockEnd(m.chunks, 0);
    assert Start(m.chunks, 1) == 1;
  }

  /** A line of four bytes and a buffer of four bytes: mread_line returns 0, and two bytes of the line are gone. */
  method LostLine() returns (m: Mfile, r: nat)
    ensures m.Valid() && m.Content() == [97, 98, 99, LF] && r == 0 && m.Rest() == [99, LF]
  {
    hide Mfile.Core, Mfile.Content, Mfile.Rest, Mfile.Offset, Mfile.Ready, Concat;
    m := new Mfile(0);
    var text: seq<byte> := [97, 98, 99, LF];
    var _ := m.Write(text);
    Parts(m);
    m.Seek();
    var buf := new byte[4];
    r := m.ReadLine(buf, 4);
    FourTurns(text);
  }

  lemma {:induction false} FourTurns(text: seq<byte>)
    requires text == [97, 98, 99, LF]
    ensures Text(text) && Turns(text) == 4
  {
    var c: seq<byte>, d: seq<byte> := [99, LF], [LF];
    assert c[1..] == d && text[1..][1..] == c;
    assert Turns(d) == 1;
    assert Turns(c) == 2;
  }
}
