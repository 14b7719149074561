/** c/lib/mfile/mfile.c: a file in memory, kept as a list (c/lib/mfile/queue.h) of blocks of a fixed size. */
module Mfile {
  import opened Bytes
  import opened MfileFlat
  import opened MfileLines

  /** DATA_BLOCK, with its TAILQ_ENTRY: `prev` is null where tqe_prev is the address of the list head's first link. */
  class DataBlock {
    const data: array<byte>
    var writeCount: nat
    var readCount: nat
    var next: DataBlock?
    var prev: DataBlock?

    constructor (size: nat)
      ensures fresh(data) && data.Length == size
      ensures writeCount == readCount == 0 && next == prev == null
    {
      data := new byte[size];
      writeCount, readCount, next, prev := 0, 0, null, null;
    }
  }

  ghost predicate Distinct(blocks: seq<DataBlock>) {
    forall i, j :: 0 <= i < j < |blocks| ==> blocks[i] != blocks[j] && blocks[i].data != blocks[j].data
  }

  lemma {:induction false} StillDistinct(blocks: seq<DataBlock>, n: DataBlock)
    requires Distinct(blocks) && forall b :: b in blocks ==> b != n && b.data != n.data
    ensures Distinct(blocks + [n]) && Distinct([n] + blocks)
    ensures forall i :: 0 < i < |blocks| ==> blocks[i] != blocks[0]
    ensures forall i :: 0 <= i < |blocks| - 1 ==> blocks[i] != blocks[|blocks| - 1]
  {
    var front, back := [n] + blocks, blocks + [n];
    forall i, j | 0 <= i < j < |back| ensures back[i] != back[j] && back[i].data != back[j].data {
      assert back[i] == blocks[i] && blocks[i] in blocks && (j < |blocks| ==> back[j] == blocks[j]);
    }
    assert Distinct(back);
    forall i, j | 0 <= i < j < |front| ensures front[i] != front[j] && front[i].data != front[j].data {
      assert front[j] == blocks[j - 1] && blocks[j - 1] in blocks && (i > 0 ==> front[i] == blocks[i - 1]);
    }
    assert Distinct(front);
  }

  /** The block, of `size` bytes, holds `chunk`. */
  ghost predicate Filled(b: DataBlock, chunk: seq<byte>, size: nat)
    reads b`writeCount, b.data
  {
    b.data.Length == size && b.writeCount <= size && b.data[..b.writeCount] == chunk
  }

  lemma {:induction false} EmptyFilled(b: DataBlock)
    requires b.writeCount == 0
    ensures Filled(b, [], b.data.Length)
  {
  }

  /** memcpy from one buffer to another. */
  method CopyBytes(to: array<byte>, at: nat, from: array<byte>, start: nat, n: nat)
    requires to != from && at + n <= to.Length && start + n <= from.Length
    modifies to
    ensures to[..at] == old(to[..at]) && to[at..at + n] == from[start..start + n] && to[at + n..] == old(to[at + n..])
  {
    forall k | at <= k < at + n { to[k] := from[start + k - at]; }
  }

  /** The bytes that mread delivers after mseek_pos to `pos`: none at the boundary of two blocks, and all from the start
      for a position behind the end. */
  ghost function From(chunks: Chunks, pos: nat): seq<byte> {
    var content := Concat(chunks);
    if Boundary(chunks, pos) then [] else if pos <= |content| then content[pos..] else content
  }

  lemma {:induction false} FromFits(chunks: Chunks, pos: nat)
    requires |Concat(chunks)| < 0x8000_0000 && pos < TWO_32 && AllNonEmpty(chunks)
    ensures |From(chunks, pos)| <= |Concat(chunks)|
    ensures From(chunks, NotNegative(ToInt(pos))) == From(chunks, pos)
  {
    hide Concat;
    NoBoundaryAtZero(chunks);
    if pos >= 0x8000_0000 { NoBoundary(chunks, pos); }
  }

  const DEFAULT_DATA_BLOCK_SIZE: nat := 8888

  /** MFILE; of the list head, `last` is null where tqh_last is the address of `first`. */
  class Mfile {
    var totalSize: nat
    var newHeaderSize: nat
    var first: DataBlock?
    var last: DataBlock?
    var blockNum: nat
    var writeBlock: DataBlock?
    var readBlock: DataBlock?
    var isFull: bool
    var isEmpty: bool
    const blockSize: nat
    var ccache: byte
    /** The blocks from first to last, what each of them holds, and the index of the read block. */
    ghost var blocks: seq<DataBlock>
    ghost var chunks: Chunks
    ghost var cur: nat
    ghost var repr: set<object>

    // ---------- Invariant ----------

    ghost predicate Links(i: nat)
      requires i < |blocks|
      reads this`blocks, blocks`next, blocks`prev
    {
      && blocks[i].next == (if i + 1 < |blocks| then blocks[i + 1] else null)
      && blocks[i].prev == (if i > 0 then blocks[i - 1] else null)
    }

    ghost predicate Holds(i: nat)
      requires i < |blocks| == |chunks|
      reads this`blocks, this`chunks, this`repr, blocks`writeCount, set b | b in blocks :: b.data
    {
      blocks[i] in repr && blocks[i].data in repr && Filled(blocks[i], chunks[i], blockSize)
    }

    /** The list is linked in both directions. */
    ghost predicate Linked()
      reads this`blocks, this`first, this`last, blocks`next, blocks`prev
    {
      && first == (if blocks == [] then null else blocks[0])
      && last == (if blocks == [] then null else blocks[|blocks| - 1])
      && Distinct(blocks)
      && forall i :: 0 <= i < |blocks| ==> Links(i)
    }

    /** The blocks of the list hold the chunks. */
    ghost predicate Core()
      reads this`blocks, this`chunks, this`repr, this`blockNum, this`first, this`last
      reads blocks`next, blocks`prev, blocks`writeCount, set b | b in blocks :: b.data
    {
      && this in repr && 0 < blockSize && |chunks| == |blocks| == blockNum
      && Linked()
      && forall i :: 0 <= i < |blocks| ==> Holds(i)
    }

    /** The content as one flat file. */
    ghost function Content(): seq<byte>
      reads this`chunks
    {
      Concat(chunks)
    }

    /** No block is empty, and there is room in the write block unless `isFull` is set. */
    ghost predicate Writable()
      reads this`blocks, this`chunks, this`repr, this`blockNum, this`first, this`last, this`isFull, this`writeBlock
      reads blocks`next, blocks`prev, blocks`writeCount, set b | b in blocks :: b.data
    {
      Core() && AllNonEmpty(chunks) && (!isFull ==> blocks != [] && writeBlock == last && last.writeCount < blockSize)
    }

    /** What holds between calls. */
    ghost predicate Valid()
      reads this`blocks, this`chunks, this`repr, this`blockNum, this`first, this`last, this`isFull, this`writeBlock
      reads this`totalSize, blocks`next, blocks`prev, blocks`writeCount, set b | b in blocks :: b.data
    {
      Writable() && totalSize == |Content()| < 0x8000_0000
    }

    /** The blocks and their buffers are the file's own. */
    lemma {:induction false} Owned()
      requires Core()
      ensures this in repr && 0 < blockSize && |chunks| == |blocks|
      ensures first == (if blocks == [] then null else blocks[0])
      ensures last == (if blocks == [] then null else blocks[|blocks| - 1])
      ensures forall b :: b in blocks ==> b in repr && b.data in repr && b.writeCount <= blockSize
    {
      forall b | b in blocks ensures b in repr && b.data in repr && b.writeCount <= blockSize {
        var i :| 0 <= i < |blocks| && blocks[i] == b;
        assert Holds(i);
      }
    }

    lemma {:induction false} OwnBuffers()
      requires Valid()
      ensures forall b :: b in blocks ==> b.data in repr
    {
      Owned();
    }

    lemma {:induction false} Copyable(pos: nat)
      requires Valid() && pos < TWO_32
      ensures this in repr && forall b :: b in blocks ==> b in repr && b.data in repr
      ensures |From(chunks, pos)| <= |Content()| && From(chunks, NotNegative(ToInt(pos))) == From(chunks, pos)
    {
      hide Core, From, ToInt;
      Owned();
      FromFits(chunks, pos);
    }

    lemma {:induction false} At(k: nat)
      requires Core() && k < |blocks|
      ensures blocks[k].next == (if k + 1 < |blocks| then blocks[k + 1] else null)
      ensures |chunks| == |blocks| && blocks[k].writeCount == |chunks[k]| <= blocks[k].data.Length
      ensures blocks[k].data[..|chunks[k]|] == chunks[k]
      ensures forall i :: 0 <= i < |blocks| && i != k ==> blocks[i] != blocks[k]
    {
      assert Links(k) && Holds(k);
    }

    /** mopen */
    constructor (dataBlockSize: nat)
      ensures Valid() && Content() == [] && fresh(repr)
      ensures blockSize == if dataBlockSize == 0 then 8888 else dataBlockSize
      ensures readBlock == null && !isEmpty && Unread() && ccache == LF && newHeaderSize == 0
    {
      totalSize, newHeaderSize, blockNum := 0, 0, 0;
      first, last, writeBlock, readBlock := null, null, null, null;
      isFull := true;
      isEmpty := false;
      ccache := LF;
      blockSize := if dataBlockSize == 0 then DEFAULT_DATA_BLOCK_SIZE else dataBlockSize;
      blocks, chunks, cur, repr := [], [], 0, {this};
      new;
      assert Content() == [];
    }

    // ---------- The list ----------

    /** TAILQ_INSERT_TAIL */
    method LinkTail(n: DataBlock)
      requires Linked() && forall b :: b in blocks ==> b != n && b.data != n.data
      modifies this`first, this`last, this`blocks, blocks`next, n`next, n`prev
      ensures Linked() && blocks == old(blocks) + [n]
    {
      hide Distinct;
      ghost var was := blocks;
      StillDistinct(was, n);
      n.next := null;
      n.prev := last;
      if last == null { first := n; } else { last.next := n; }
      last := n;
      blocks := blocks + [n];
      forall i | 0 <= i < |blocks| ensures Links(i) {
        if i < |old(blocks)| {
          assert blocks[i] == was[i] && was[i] in was && old(Links(i));
          assert i + 1 < |was| ==> was[i] != was[|was| - 1] && blocks[i].next == was[i + 1] == blocks[i + 1];
        }
      }
    }

    /** A new, empty block becomes the last one. */
    method InsertTail(n: DataBlock)
      requires Core() && n !in repr && n.data !in repr
      requires n.data.Length == blockSize && n.writeCount == n.readCount == 0
      modifies this`first, this`last, this`blocks, this`chunks, this`repr, this`blockNum, blocks`next, n`next, n`prev
      ensures Core() && blocks == old(blocks) + [n] && chunks == old(chunks) + [[]]
      ensures repr == old(repr) + {n, n.data}
    {
      hide Linked, Filled;
      Owned();
      EmptyFilled(n);
      blockNum := blockNum + 1;
      LinkTail(n);
      chunks, repr := chunks + [[]], repr + {n, n.data};
      forall i | 0 <= i < |blocks| ensures Holds(i) {
        if i < |old(blocks)| {
          assert old(Holds(i)) && Filled(old(blocks)[i], old(chunks)[i], blockSize);
        }
      }
    }

    /** TAILQ_INSERT_HEAD */
    method LinkHead(n: DataBlock)
      requires Linked() && forall b :: b in blocks ==> b != n && b.data != n.data
      modifies this`first, this`last, this`blocks, blocks`prev, n`next, n`prev
      ensures Linked() && blocks == [n] + old(blocks)
    {
      hide Distinct;
      ghost var was := blocks;
      StillDistinct(was, n);
      n.next := first;
      if first != null { first.prev := n; } else { last := n; }
      first := n;
      n.prev := null;
      blocks := [n] + blocks;
      forall i | 0 <= i < |blocks| ensures Links(i) {
        if i > 0 {
          assert blocks[i] == was[i - 1] && was[i - 1] in was && old(Links(i - 1));
          assert i > 1 ==> was[i - 1] != was[0] && blocks[i].prev == was[i - 2] == blocks[i - 1];
        }
      }
    }

    /** A new, empty block becomes the first one. */
    method InsertHead(n: DataBlock)
      requires Core() && n !in repr && n.data !in repr
      requires n.data.Length == blockSize && n.writeCount == n.readCount == 0
      modifies this`first, this`last, this`blocks, this`chunks, this`repr, this`blockNum, blocks`prev, n`next, n`prev
      ensures Core() && blocks == [n] + old(blocks) && chunks == [[]] + old(chunks)
      ensures repr == old(repr) + {n, n.data}
    {
      hide Linked, Filled;
      Owned();
      EmptyFilled(n);
      blockNum := blockNum + 1;
      LinkHead(n);
      chunks, repr := [[]] + chunks, repr + {n, n.data};
      forall i | 0 <= i < |blocks| ensures Holds(i) {
        if i > 0 {
          assert old(Holds(i - 1)) && Filled(old(blocks)[i - 1], old(chunks)[i - 1], blockSize);
        }
      }
    }

    /** memcpy of `part` behind what block `i` holds. */
    method Put(b: DataBlock, ghost i: nat, part: seq<byte>)
      requires Core() && i < |blocks| && blocks[i] == b && b.writeCount + |part| <= blockSize
      modifies this`chunks, b`writeCount, b.data
      ensures Core() && chunks == old(chunks)[i := old(chunks)[i] + part]
      ensures b.writeCount == old(b.writeCount) + |part|
    {
      assert Holds(i);
      forall k | 0 <= k < |part| { b.data[b.writeCount + k] := part[k]; }
      b.writeCount := b.writeCount + |part|;
      chunks := chunks[i := chunks[i] + part];
      assert b.data[..b.writeCount] == old(b.data[..b.writeCount]) + part;
      forall j | 0 <= j < |blocks| ensures Links(j) && Holds(j) {
        assert old(Links(j)) && old(Holds(j));
      }
    }

    // ---------- Writing ----------

    /** Nothing has been read yet, or mseek has been called. */
    ghost predicate Unread()
      reads this`readBlock, this`isEmpty, this`blocks, blocks`readCount
    {
      readBlock == null && !isEmpty && forall b :: b in blocks ==> b.readCount == 0
    }

    /** The head of mwrite's loop: afterwards the write block is the last one and has room. */
    method Room()
      requires Writable()
      modifies this`first, this`last, this`blocks, this`chunks, this`repr, this`blockNum, this`writeBlock, blocks`next
      ensures Core() && blocks != [] && writeBlock == last && last.writeCount < blockSize
      ensures AllNonEmpty(chunks[..|chunks| - 1])
      ensures Content() == old(Content()) && fresh(repr - old(repr))
      ensures old(Unread()) ==> Unread()
    {
      hide Core, Concat, AllNonEmpty;
      Owned();
      if isFull {
        var n := new DataBlock(blockSize);
        writeBlock := n;
        NewLast(chunks);
        ghost var before, held := chunks, blocks;
        InsertTail(n);
        assert blocks[|held|] == n && forall b :: b in blocks ==> b in held || b == n;
        assert chunks[..|before|] == before;
        Owned();
      } else {
        MostNonEmpty(chunks);
      }
    }

    /** The body of mwrite's loop; it returns how much is written then. */
    method WriteSome(data: seq<byte>, written: nat) returns (written': nat)
      requires Writable() && written < |data|
      modifies repr
      ensures Writable() && written < written' <= |data|
      ensures Content() == old(Content()) + data[written..written']
      ensures fresh(repr - old(repr)) && newHeaderSize == old(newHeaderSize) && totalSize == old(totalSize)
      ensures ccache == old(ccache) && (old(Unread()) ==> Unread())
    {
      hide Core, Concat, AllNonEmpty, Unread;
      Owned();
      Room();
      Owned();
      var current := writeBlock;
      var free := blockSize - current.writeCount;
      if |data| - written <= free {
        PutLast(current, data[written..|data|]);
        isFull := current.writeCount == blockSize;
        written' := |data|;
      } else {
        PutLast(current, data[written..written + free]);
        written' := written + free;
        isFull := true;
      }
    }

    /** memcpy of `part` behind what the last block holds. */
    method PutLast(b: DataBlock, part: seq<byte>)
      requires Core() && blocks != [] && b == last && b.writeCount + |part| <= blockSize && 0 < |part|
      requires b == blocks[|blocks| - 1] && AllNonEmpty(chunks[..|chunks| - 1])
      modifies this`chunks, b`writeCount, b.data
      ensures Core() && AllNonEmpty(chunks) && Content() == old(Content()) + part
      ensures b.writeCount == old(b.writeCount) + |part|
    {
      hide Core, Concat;
      Owned();
      ghost var before := chunks;
      Put(b, |blocks| - 1, part);
      LastGrows(before, part);
      NoneEmpty(before, part);
    }

    /** The block that was the only empty one, if any, is no longer empty. */
    lemma {:induction false} NoneEmpty(before: Chunks, part: seq<byte>)
      requires 0 < |before| && 0 < |part| && chunks == before[|before| - 1 := before[|before| - 1] + part]
      requires forall i :: 0 <= i < |before| - 1 ==> |before[i]| > 0
      ensures AllNonEmpty(chunks)
    {
    }

    /** mwrite */
    method Write(data: seq<byte>) returns (r: int)
      requires Valid() && totalSize + |data| < 0x8000_0000
      modifies repr
      ensures Valid() && Content() == old(Content()) + data && r == 1
      ensures fresh(repr - old(repr)) && newHeaderSize == old(newHeaderSize)
      ensures ccache == old(ccache) && (old(Unread()) ==> Unread())
    {
      hide Core, Content;
      Owned();
      var written := 0;
      totalSize := totalSize + |data|;
      assert old(Content()) + data[..0] == old(Content());
      while written < |data|
        invariant written <= |data| && Writable() && Content() == old(Content()) + data[..written]
        invariant fresh(repr - old(repr)) && newHeaderSize == old(newHeaderSize) && totalSize == old(totalSize) + |data|
        invariant ccache == old(ccache) && (old(Unread()) ==> Unread())
        decreases |data| - written
      {
        ghost var before := written;
        written := WriteSome(data, written);
        assert data[..before] + data[before..written] == data[..written];
      }
      r := 1;
    }

    /** The part of mwrite_head that makes a block of `data` the first one. */
    method NewHead(data: seq<byte>)
      requires Core() && |data| <= blockSize
      modifies this`first, this`last, this`blocks, this`chunks, this`repr, this`blockNum, blocks`prev
      ensures Core() && chunks == [data] + old(chunks) && fresh(repr - old(repr))
      ensures old(blocks) != [] ==> last == old(last)
      ensures forall b :: b in blocks ==> b in old(blocks) || b.readCount == 0
    {
      hide Core;
      Owned();
      var n := new DataBlock(blockSize);
      InsertHead(n);
      Put(n, 0, data);
      Owned();
      assert [] + data == data;
      assert chunks == [data] + old(chunks);
    }

    /** mwrite_head */
    method WriteHead(data: seq<byte>) returns (r: int)
      requires Valid() && totalSize + |data| < 0x8000_0000 && |data| > 0
      modifies repr
      ensures Valid() && fresh(repr - old(repr))
      ensures r == if |data| > blockSize then -1 else 1
      ensures Content() == if r == 1 then data + old(Content()) else old(Content())
      ensures newHeaderSize == old(newHeaderSize) + if r == 1 then |data| else 0
      ensures ccache == old(ccache) && (old(Unread()) ==> Unread())
    {
      hide Core, Concat;
      if |data| > blockSize { return -1; }
      Owned();
      totalSize := totalSize + |data|;
      newHeaderSize := newHeaderSize + |data|;
      NewHead(data);
      Owned();
      ConcatCons(data, old(chunks));
      return 1;
    }

    // ---------- The read cursor ----------

    /** The blocks from number `k` on have not been read. */
    ghost predicate Fresh(k: nat)
      reads this`blocks, blocks`readCount
    {
      forall i :: k <= i < |blocks| ==> blocks[i].readCount == 0
    }

    ghost predicate Reading()
      reads this`readBlock, this`cur, this`blocks, blocks`readCount, blocks`writeCount
    {
      && cur < |blocks| && readBlock == blocks[cur] && blocks[cur].readCount <= blocks[cur].writeCount
      && Fresh(cur + 1)
    }

    /** The cursor stands somewhere in the file; `isEmpty` tells that its block is used up. */
    ghost predicate Ready()
      reads this`readBlock, this`cur, this`isEmpty, this`blocks, blocks`readCount, blocks`writeCount
    {
      Unread() || (Reading() && (isEmpty <==> blocks[cur].readCount == blocks[cur].writeCount))
    }

    /** The cursor stands at the end of a block, but `isEmpty` is not set. */
    ghost predicate Stuck()
      reads this`readBlock, this`cur, this`isEmpty, this`blocks, blocks`readCount, blocks`writeCount
    {
      Reading() && !isEmpty && blocks[cur].readCount == blocks[cur].writeCount
    }

    /** The position of the cursor in the flat file. */
    ghost function Offset(): nat
      reads this`readBlock, this`cur, this`blocks, this`chunks, blocks`readCount
    {
      if readBlock != null && cur < |blocks| && cur < |chunks| then Start(chunks, cur) + blocks[cur].readCount else 0
    }

    /** The bytes that are still to be read. */
    ghost function Rest(): seq<byte>
      reads this`readBlock, this`cur, this`blocks, this`chunks, blocks`readCount
    {
      if Offset() <= |Content()| then Content()[Offset()..] else []
    }

    /** The bytes that mread can deliver from here on. */
    ghost function Deliverable(): seq<byte>
      reads this`readBlock, this`cur, this`isEmpty, this`blocks, this`chunks, blocks`readCount, blocks`writeCount
    {
      if Stuck() then [] else Rest()
    }

    /** mseek */
    method Seek()
      requires Valid()
      modifies this`isEmpty, this`readBlock, blocks`readCount
      ensures Valid() && Unread() && Ready() && Rest() == Content()
    {
      hide Core, Content;
      isEmpty := false;
      readBlock := null;
      ghost var k := 0;
      Owned();
      var n1 := first;
      while n1 != null
        invariant k <= |blocks| && n1 == (if k < |blocks| then blocks[k] else null)
        invariant forall i :: 0 <= i < k ==> blocks[i].readCount == 0
        invariant readBlock == null && !isEmpty
        decreases |blocks| - k
      {
        At(k);
        n1.readCount := 0;
        n1 := n1.next;
        k := k + 1;
      }
    }

    /** The cursor goes to position `pos` of block `k`. */
    method Place(b: DataBlock, ghost k: nat, pos: nat)
      requires Valid() && Unread() && k < |blocks| && blocks[k] == b && pos <= b.writeCount
      modifies this`readBlock, this`cur, b`readCount
      ensures Reading() && !isEmpty && cur == k && blocks[k].readCount == pos
    {
      hide Core;
      At(k);
      b.readCount := pos;
      readBlock := b;
      cur := k;
    }

    /** The loop of mseek_pos up to the block it stops at. */
    method FindBlock(pos: nat) returns (n1: DataBlock?, rest: nat, ghost k: nat)
      requires Valid()
      ensures k <= |blocks| == |chunks| && n1 == (if k < |blocks| then blocks[k] else null)
      ensures pos == Start(chunks, k) + rest && (k == 0 || 0 < rest)
      ensures n1 != null ==> rest <= n1.writeCount == |chunks[k]|
    {
      hide Core, Concat, Start, AllNonEmpty;
      rest, k := pos, 0;
      Owned();
      StartFirst(chunks);
      n1 := first;
      while n1 != null
        invariant k <= |blocks| && n1 == (if k < |blocks| then blocks[k] else null)
        invariant pos == Start(chunks, k) + rest && (k == 0 || 0 < rest)
        decreases |blocks| - k
      {
        At(k);
        if rest <= n1.writeCount { break; }
        StartNext(chunks, k);
        rest := rest - n1.writeCount;
        n1 := n1.next;
        k := k + 1;
      }
    }

    /** mseek_pos */
    method SeekPos(pos: int)
      requires Valid()
      modifies this`isEmpty, this`readBlock, this`cur, blocks`readCount
      ensures Valid() && (Ready() || Stuck())
      ensures
        var p := NotNegative(pos);
        && Offset() == (if p <= |Content()| then p else 0)
        && (Stuck() <==> Boundary(chunks, p) || 0 < p == |Content()|)
        && Deliverable() == From(chunks, p)
    {
      hide Valid, Content, Start, Boundary, Reading, Unread, Ready, Stuck, Offset, Rest, Deliverable, From;
      var p := NotNegative(pos);
      Seek();
      var n1, rest, k := FindBlock(p);
      if n1 != null {
        Place(n1, k, rest);
        PlacedAt(p, k, rest);
      } else {
        PastTheEnd(p, rest);
      }
    }

    /** The cursor at byte `rest` of block `k`. */
    lemma {:induction false} PlacedAt(p: nat, k: nat, rest: nat)
      requires Valid() && Reading() && !isEmpty && cur == k && blocks[k].readCount == rest && k < |chunks|
      requires p == Start(chunks, k) + rest && rest <= blocks[k].writeCount == |chunks[k]| && (k == 0 || 0 < rest)
      ensures (Ready() || Stuck()) && Offset() == p <= |Content()|
      ensures Stuck() <==> Boundary(chunks, p) || 0 < p == |Content()|
      ensures Deliverable() == From(chunks, p)
    {
      hide Core, Concat, Start, Boundary, AllNonEmpty, Fresh;
      Owned();
      BoundaryIs(chunks, k, rest);
    }

    /** No block is left: the position is behind the end, or the file is empty. */
    lemma {:induction false} PastTheEnd(p: nat, rest: nat)
      requires Valid() && Unread() && p == Start(chunks, |blocks|) + rest && (blocks == [] || 0 < rest)
      ensures Ready() && !Stuck() && Offset() == 0 && (p <= |Content()| ==> p == 0)
      ensures !Boundary(chunks, p) && !(0 < p == |Content()|) && Deliverable() == From(chunks, p)
    {
      hide Core, Concat, Start, Boundary, AllNonEmpty, Fresh;
      Owned();
      StartFirst(chunks);
      StartLast(chunks);
      NoBoundary(chunks, p);
    }

    // ---------- Reading ----------

    /** The read block is used up: goes on to the next one. */
    method NextBlock() returns (ok: bool)
      requires Writable() && Reading() && Ready() && isEmpty
      modifies this`readBlock, this`cur
      ensures Reading() && Offset() == old(Offset()) <= |Content()|
      ensures !ok ==> Ready() && Offset() == |Content()|
      ensures ok ==> blocks[cur].readCount < blocks[cur].writeCount
    {
      hide Core, Start, Concat;
      At(cur);
      BlockEnd(chunks, cur);
      var newBlock := readBlock.next;
      if newBlock == null { return false; }
      readBlock := newBlock;
      cur := cur + 1;
      At(cur);
      BlockEnd(chunks, cur);
      ok := true;
    }

    /** The copying part of mread's loop. */
    method CopyOut(data: array<byte>, at: nat, want: nat) returns (got: nat)
      requires Core() && Reading() && blocks[cur].readCount < blocks[cur].writeCount
      requires 0 < want && at + want <= data.Length && data !in repr
      modifies this`isEmpty, readBlock`readCount, data
      ensures Core() && Reading() && Ready()
      ensures 0 < got <= want && (got < want ==> isEmpty)
      ensures Offset() == old(Offset()) + got <= |Content()|
      ensures data[..at] == old(data[..at]) && data[at + got..] == old(data[at + got..])
      ensures data[at..at + got] == Content()[old(Offset())..old(Offset()) + got]
    {
      hide Links, Distinct, Start, Concat;
      Owned();
      At(cur);
      var current := readBlock;
      var couldRead := current.writeCount - current.readCount;
      got := if want <= couldRead then want else couldRead;
      ChunkAt(chunks, cur, current.readCount, current.readCount + got);
      CopyBytes(data, at, current.data, current.readCount, got);
      SliceOfSlice(current.data[..], 0, |chunks[cur]|, current.readCount, current.readCount + got);
      current.readCount := current.readCount + got;
      if want <= couldRead {
        isEmpty := current.readCount == current.writeCount;
      } else {
        isEmpty := true;
      }
    }

    /** The offset of a cursor that is in order lies in the file. */
    lemma {:induction false} OffsetInside()
      requires Core() && (Ready() || Stuck())
      ensures Offset() <= |Content()|
    {
      hide Core, Start, Concat;
      Owned();
      if readBlock != null {
        At(cur);
        BlockEnd(chunks, cur);
      }
    }

    /** The body of mread's loop: takes up to `want` bytes, or none where the loop breaks. */
    method ReadSome(data: array<byte>, at: nat, want: nat) returns (got: nat)
      requires Valid() && Reading() && (Ready() || Stuck()) && 0 < want && at + want <= data.Length && data !in repr
      modifies this`readBlock, this`isEmpty, this`cur, blocks`readCount, data
      ensures Valid() && Reading() && got <= want && Offset() == old(Offset()) + got <= |Content()|
      ensures old(Stuck()) ==> got == 0 && Stuck()
      ensures old(Ready()) ==> Ready() && (got == 0 ==> Offset() == |Content()|)
      ensures data[..at] == old(data[..at]) && data[at + got..] == old(data[at + got..])
      ensures data[at..at + got] == Content()[old(Offset())..Offset()]
    {
      hide Core, Start, Concat, Content, AllNonEmpty, Fresh;
      Owned();
      OffsetInside();
      if isEmpty {
        var ok := NextBlock();
        if !ok { return 0; }
      }
      if readBlock.writeCount - readBlock.readCount <= 0 { return 0; }
      got := CopyOut(data, at, want);
    }

    /** mread's loop. */
    method ReadLoop(data: array<byte>, len: int) returns (r: int)
      requires Valid() && Reading() && (Ready() || Stuck()) && len <= data.Length && data !in repr
      modifies this`readBlock, this`isEmpty, this`cur, blocks`readCount, data
      ensures Valid() && 0 <= r <= NotNegative(len) && data[r..] == old(data[r..])
      ensures old(Stuck()) ==> r == 0 && Stuck() && Offset() == old(Offset())
      ensures old(Ready()) ==>
        && Ready()
        && r == Least(NotNegative(len), |Content()| - old(Offset()))
        && Offset() == old(Offset()) + r <= |Content()|
        && data[..r] == Content()[old(Offset())..Offset()]
    {
      hide Core, Start, Concat, Content, AllNonEmpty, Fresh;
      Owned();
      OffsetInside();
      ghost var stuck, off := Stuck(), Offset();
      r := 0;
      while r < len
        invariant 0 <= r <= NotNegative(len) && Valid() && Reading() && Offset() == off + r <= |Content()|
        invariant data[r..] == old(data[r..])
        invariant if stuck then r == 0 && Stuck() else Ready() && data[..r] == Content()[off..off + r]
        decreases len - r
      {
        ghost var before := data[..];
        var got := ReadSome(data, r, len - r);
        if got == 0 { break; }
        Delivered(Content(), off, before, data[..], r, got);
        SuffixKept(before, old(data[..]), r, got);
        r := r + got;
      }
    }

    /** Without a read block, mread and mgetc start with the first one, if there is one. */
    method StartReading() returns (ok: bool)
      requires Valid() && (Ready() || Stuck())
      modifies this`readBlock, this`cur
      ensures Offset() == old(Offset()) <= |Content()| && ok == (blocks != [])
      ensures if old(Ready()) then Ready() else Stuck()
      ensures if ok then Reading() else Unread() && |chunks| == 0
    {
      hide Core, Start, Concat, Content;
      Owned();
      OffsetInside();
      ok := true;
      if readBlock == null {
        readBlock := first;
        if readBlock == null { return false; }
        cur := 0;
        At(0);
        StartFirst(chunks);
      }
    }

    /** mread */
    method Read(data: array<byte>, len: int) returns (r: int)
      requires Valid() && (Ready() || Stuck()) && len <= data.Length && data !in repr
      modifies this`readBlock, this`isEmpty, this`cur, blocks`readCount, data
      ensures Valid() && r <= data.Length && data[NotNegative(r)..] == old(data[NotNegative(r)..])
      ensures blocks == [] ==> r == -1 && Unread()
      ensures blocks != [] && old(Stuck()) ==> r == 0 && Stuck() && Offset() == old(Offset())
      ensures blocks != [] && old(Ready()) ==>
        && Ready()
        && 0 <= r == Least(NotNegative(len), |Content()| - old(Offset()))
        && Offset() == old(Offset()) + r <= |Content()|
        && data[..r] == Content()[old(Offset())..Offset()]
      ensures if old(Ready()) then Ready() else Stuck()
      ensures |old(Deliverable())| >= NotNegative(r) && Deliverable() == old(Deliverable())[NotNegative(r)..]
      ensures data[..NotNegative(r)] == old(Deliverable())[..NotNegative(r)]
      ensures NotNegative(r) == Least(NotNegative(len), |old(Deliverable())|)
    {
      hide Core, Start, Concat, Content;
      OffsetInside();
      var ok := StartReading();
      if !ok {
        NoContent();
        return -1;
      }
      r := ReadLoop(data, len);
    }

    /** mgetc */
    method Getc() returns (c: byte)
      requires Valid() && Ready()
      modifies this`readBlock, this`isEmpty, this`cur, blocks`readCount
      ensures Valid() && Ready() && old(Offset()) <= |Content()|
      ensures old(Offset()) == |Content()| ==> c == 0 && Offset() == old(Offset())
      ensures old(Offset()) < |Content()| ==> c == Content()[old(Offset())] && Offset() == old(Offset()) + 1
      ensures old(Rest()) == [] ==> c == 0 && Rest() == []
      ensures old(Rest()) != [] ==> c == old(Rest())[0] && Rest() == old(Rest())[1..]
    {
      hide Core, Start, Concat, Content, Fresh;
      var ok := StartReading();
      if !ok {
        NoContent();
        return 0;
      }
      if isEmpty {
        ok := NextBlock();
        if !ok { return 0; }
      }
      c := TakeByte();
    }

    lemma {:induction false} NoContent()
      requires blocks == [] && |chunks| == 0
      ensures Content() == []
    {
    }

    /** The byte at the cursor. */
    method TakeByte() returns (c: byte)
      requires Core() && Reading() && blocks[cur].readCount < blocks[cur].writeCount
      modifies this`isEmpty, readBlock`readCount
      ensures Reading() && Ready() && Offset() == old(Offset()) + 1 <= |Content()| && c == Content()[old(Offset())]
    {
      hide Core, Start, Concat;
      At(cur);
      var current := readBlock;
      var at := current.readCount;
      ChunkAt(chunks, cur, at, at + 1);
      assert Content()[Start(chunks, cur) + at..Start(chunks, cur) + at + 1][0] == chunks[cur][at..at + 1][0];
      current.readCount := at + 1;
      isEmpty := current.readCount == current.writeCount;
      c := current.data[at];
      assert current.data[..|chunks[cur]|][at] == chunks[cur][at];
    }

    /** One call of mread or mgetc, and the bytes it delivers. */
    method Answer(request: Request) returns (more: seq<byte>)
      requires Valid() && Ready()
      modifies this`readBlock, this`isEmpty, this`cur, blocks`readCount
      ensures Valid() && Ready() && Answered(old(Rest()), Asked(request), more, Rest())
    {
      hide Core, Content, Rest, Offset;
      OwnBuffers();
      match request {
        case Character =>
          var c := Getc();
          more := [c];
        case Piece(len) =>
          var data := new byte[NotNegative(len)];
          var r := Read(data, len);
          more := data[..NotNegative(r)];
      }
    }

    /** Any mix of calls of mread and mgetc: the bytes that are left come out once, in order. */
    method ReadMix(requests: seq<Request>) returns (got: seq<byte>)
      requires Valid() && Ready()
      modifies this`readBlock, this`isEmpty, this`cur, blocks`readCount
      ensures Valid() && Ready() && InOrder(old(Rest()), got, Rest(), Total(requests))
    {
      hide Core, Content, Rest, Offset, InOrder, Answered, Asked, Total, Valid, Ready;
      got := [];
      ghost var rest := Rest();
      NothingAsked(rest, requests);
      for i := 0 to |requests|
        invariant Valid() && Ready() && InOrder(rest, got, Rest(), Total(requests[..i]))
      {
        AskedMore(requests, i);
        ghost var t := Rest();
        var more := Answer(requests[i]);
        StillInOrder(rest, got, t, Total(requests[..i]), more, Asked(requests[i]), Rest());
        got := got + more;
      }
      assert requests[..|requests|] == requests;
    }

    /** msize */
    method Size() returns (n: nat)
      requires Valid()
      ensures n == |Content()|
    {
      n := totalSize;
    }

    // ---------- Lines ----------

    /** The next byte of mread_line: the cached one, if there is any. */
    method LineByte() returns (c: byte)
      requires Valid() && Ready()
      modifies this`readBlock, this`isEmpty, this`cur, this`ccache, blocks`readCount
      ensures Valid() && Ready()
      ensures old(ccache) == LF && old(Rest()) == [] ==> ccache == LF && c == 0 && Rest() == []
      ensures old(ccache) == LF && old(Rest()) != [] ==>
        ccache == LF && c == old(Rest())[0] && Rest() == old(Rest())[1..]
    {
      hide Core, Start, Concat, Content, Rest, Offset, Ready;
      if ccache == LF {
        c := Getc();
      } else {
        c := ccache;
        ccache := CR;
      }
    }

    /** What mread_line does behind a CR, which it has put at position `d`. */
    method AfterCr(buf: array<byte>, d: nat) returns (r: nat)
      requires Valid() && Ready() && d + 3 <= buf.Length && buf !in repr
      modifies this`readBlock, this`isEmpty, this`cur, this`ccache, blocks`readCount, buf
      ensures Valid() && Ready()
      ensures buf[..d + 1] == old(buf[..d + 1]) && buf[d + 3..] == old(buf[d + 3..])
      ensures buf[d + 2] == old(buf[d + 2]) || buf[d + 2] == 0
      ensures old(Rest()) != [] && old(Rest())[0] == LF ==>
        ccache == LF && r == d + 2 && Rest() == old(Rest())[1..] && buf[d + 1] == LF
    {
      hide Core, Start, Concat, Content, Rest, Offset, Ready;
      Owned();
      ccache := Getc();
      if ccache == 0 {
        buf[d + 1] := LF;
        buf[d + 2] := 0;
        r := d + 2;
      } else if ccache != LF {
        r := d + 1;
      } else {
        buf[d + 1] := ccache;
        r := d + 2;
      }
    }

    /** The body of mread_line's loop, at position `d` of the buffer; `done` where it breaks. */
    method LineStep(buf: array<byte>, d: nat) returns (done: bool, r: nat)
      requires Valid() && Ready() && d + 3 <= buf.Length && buf !in repr
      modifies this`readBlock, this`isEmpty, this`cur, this`ccache, blocks`readCount, buf
      ensures Valid() && Ready()
      ensures buf[..d] == old(buf[..d]) && buf[d + 3..] == old(buf[d + 3..])
      ensures buf[d + 2] == old(buf[d + 2]) || buf[d + 2] == 0
      ensures !done ==> r == 0
      ensures old(ccache) == LF && Text(old(Rest())) ==>
        ccache == LF && Stepped(old(Rest()), Rest(), buf[d..d + 2], done, r - d)
    {
      hide Core, Start, Concat, Content, Rest, Offset, Ready, Text, Valid;
      OwnBuffers();
      if Text(Rest()) { FirstByte(Rest()); }
      done, r := true, 0;
      var c := LineByte();
      buf[d] := c;
      if c == CR {
        r := AfterCr(buf, d);
        assert buf[d] == buf[..d + 1][d];
      } else if c == LF {
        r := d + 1;
      } else if c == 0 {
        r := d;
      } else {
        done := false;
      }
    }

    /** One turn of mread_line's loop; if `text` is set, the line is the first one of `s`. */
    method LineTurn(buf: array<byte>, n: nat, d: nat, ghost s: seq<byte>, ghost text: bool)
      returns (done: bool, r: nat)
      requires Valid() && Ready() && d + 3 <= n <= buf.Length && buf !in repr && buf[n - 1] == 0
      requires text ==> ccache == LF && Text(Rest()) && InLine(s, Rest(), buf[..d])
      modifies this`readBlock, this`isEmpty, this`cur, this`ccache, blocks`readCount, buf
      ensures Valid() && Ready() && buf[n - 1] == 0 && buf[n..] == old(buf[n..])
      ensures done && text ==> ccache == LF && LineRead(s, Rest(), buf[..n], n, r)
      ensures !done ==> r == 0
      ensures !done && text ==> ccache == LF && Text(Rest()) && InLine(s, Rest(), buf[..d + 1])
    {
      hide Core, Start, Concat, Content, Rest, Offset, Ready, Text, Valid, InLine, Stepped, LineRead;
      ghost var t, got, behind := Rest(), buf[..d], buf[d + 3..];
      done, r := LineStep(buf, d);
      assert buf[n..] == behind[n - d - 3..];
      if text {
        if done {
          assert buf[..n][..d] == got && buf[..n][d..d + 2] == buf[d..d + 2];
          LineDone(s, t, Rest(), got, buf[..n], r);
        } else {
          StillInLine(s, t, Rest(), got, buf[d..d + 2], r - d);
          assert buf[..d + 1] == got + [buf[d]];
        }
      }
    }

    /** mread_line */
    method ReadLine(buf: array<byte>, n: nat) returns (r: nat)
      requires Valid() && Ready() && 2 <= n <= buf.Length && buf !in repr
      modifies this`readBlock, this`isEmpty, this`cur, this`ccache, blocks`readCount, buf
      ensures Valid() && Ready() && buf[n - 1] == 0 && buf[n..] == old(buf[n..])
      ensures old(ccache) == LF && Text(old(Rest())) ==> ccache == LF && LineRead(old(Rest()), Rest(), buf[..n], n, r)
    {
      hide Core, Start, Concat, Content, Rest, Offset, Ready, Text, Valid, InLine, LineRead;
      OwnBuffers();
      ghost var s := Rest();
      ghost var text := ccache == LF && Text(s);
      if text { AtStart(s); }
      buf[n - 1] := 0;
      var left := n - 2;
      r := 0;
      if left != 0 {
        var d := 0;
        assert buf[..0] == [];
        while true
          invariant Valid() && Ready() && 0 < left && d + left == n - 2 && r == 0
          invariant buf[n - 1] == 0 && buf[n..] == old(buf[n..])
          invariant text ==> ccache == LF && Text(Rest()) && InLine(s, Rest(), buf[..d])
          decreases left
        {
          var done;
          done, r := LineTurn(buf, n, d, s, text);
          if done { return; }
          d, left := d + 1, left - 1;
          if left == 0 { break; }
        }
        assert buf[..n][..n - 2] == buf[..d];
      } else {
        assert buf[..n][..0] == [];
      }
      if text { LineTooLong(s, Rest(), buf[..n], n); }
    }

    /** mread_line until it returns 0: the lines of the text that is left, in order, up to the first one that does not
        fit. */
    method ReadLines(n: nat) returns (lines: seq<seq<byte>>)
      requires Valid() && Ready() && ccache == LF && 2 <= n && Text(Rest())
      modifies this`readBlock, this`isEmpty, this`cur, this`ccache, blocks`readCount
      ensures Valid() && Ready() && ccache == LF && LinesTaken(old(Rest()), lines, Rest(), n)
    {
      hide Core, Content, Rest, Offset, Valid, Ready, Text, LineRead, LinesTaken, TakingLines;
      var buf := new byte[n];
      lines := [];
      ghost var all := Rest();
      NoLinesTaken(all, n);
      OwnBuffers();
      while true
        invariant Valid() && Ready() && ccache == LF && buf !in repr
        invariant Text(Rest()) && TakingLines(all, lines, Rest(), n)
        decreases |Rest()|
      {
        ghost var s := Rest();
        var r := ReadLine(buf, n);
        LinesGoOn(all, lines, s, Rest(), buf[..n], n, r);
        if r == 0 { break; }
        assert buf[..n][..r] == buf[..r];
        lines := lines + [buf[..r]];
      }
    }
  }

  /** An `unsigned int` as an `int`. */
  function ToInt(x: nat): (r: int)
    requires x < TWO_32
    ensures -0x8000_0000 <= r < 0x8000_0000 && (x - r) % 0x1_0000_0000 == 0
  {
    if x < 0x8000_0000 then x else x - TWO_32
  }

  /** Two files and a buffer that have nothing in common, the first file's cursor being in order. */
  ghost predicate Separate(src: Mfile, dest: Mfile, buffer: array<byte>)
    reads src, src.repr, dest, dest.repr
  {
    && src in src.repr && dest in dest.repr && (forall b :: b in src.blocks ==> b in src.repr && b.data in src.repr)
    && (forall b :: b in dest.blocks ==> b in dest.repr && b.data in dest.repr)
    && src.Valid() && dest.Valid() && (src.Ready() || src.Stuck())
    && src.repr !! dest.repr && buffer !in src.repr && buffer !in dest.repr
  }

  /** `done` bytes of `file` have been copied behind the old content of the destination. */
  ghost predicate Copied(dest: Mfile, src: Mfile, content: seq<byte>, file: seq<byte>, done: nat)
    reads src, src.repr, dest
  {
    && src in src.repr && (forall b :: b in src.blocks ==> b in src.repr)
    && done <= |file| && |content| + |file| < 0x8000_0000
    && dest.Content() == content + file[..done] && src.Deliverable() == file[done..]
  }

  /** One piece of mfile_copy: mread, and mwrite of what it returned. */
  method CopyPiece(dest: Mfile, src: Mfile, buffer: array<byte>, j: nat,
                   ghost content: seq<byte>, ghost file: seq<byte>, ghost done: nat)
    returns (ret: int, ghost n: nat)
    requires Separate(src, dest, buffer) && 0 < j <= buffer.Length && Copied(dest, src, content, file, done)
    modifies dest.repr, buffer, src`isEmpty, src`readBlock, src`cur, src.blocks`readCount
    ensures Separate(src, dest, buffer) && fresh(dest.repr - old(dest.repr)) && src.blocks == old(src.blocks)
    ensures dest.ccache == old(dest.ccache)
    ensures n == Least(j, |file| - done) && (ret <= 0 <==> n == 0) && (ret > 0 ==> ret == n)
    ensures Copied(dest, src, content, file, done + n)
  {
    hide Mfile.Core, Mfile.Content, Mfile.Ready, Mfile.Stuck, Mfile.Rest, Mfile.Offset, Mfile.Deliverable, AllNonEmpty;
    src.Owned();
    dest.Owned();
    ret := src.Read(buffer, j);
    n := NotNegative(ret);
    PieceAt(content, file, done, n);
    if ret > 0 {
      var _ := dest.Write(buffer[..ret]);
      dest.Owned();
    } else {
      assert dest.Content() + [] == dest.Content();
    }
  }

  lemma {:induction false} PieceAt(dest: seq<byte>, file: seq<byte>, done: nat, n: nat)
    requires done + n <= |file|
    ensures dest + file[..done] + file[done..][..n] == dest + file[..done + n]
    ensures file[done..][n..] == file[done + n..]
  {
    assert file[..done] + file[done..][..n] == file[..done + n];
  }

  /** `n` bytes are a number of full buffers. */
  predicate FullPieces(n: nat) {
    n % 1024 == 0
  }

  /** Fewer bytes than wanted, and the last piece fills the buffer: the copy then tries to read more. */
  predicate RunsDry(len: nat, want: int) {
    len < want && FullPieces(len)
  }

  /** What a piece of `n` bytes tells about the end of the copy. */
  lemma {:induction false} PieceEnds(len: nat, want: nat, done: nat, j: nat, n: nat)
    requires done <= len && done < want && FullPieces(done)
    requires j == (if want - done < 1024 then want - done else 1024) && n == Least(j, len - done)
    ensures done + n <= len && n <= j <= 1024
    ensures n == 0 ==> Least(want, len) == done && RunsDry(len, want)
    ensures 0 < n < 1024 ==> Least(want, len) == done + n && !RunsDry(len, want)
    ensures n == 1024 ==> FullPieces(done + n)
  {
  }

  lemma {:induction false} NoPieces()
    ensures FullPieces(0)
  {
  }

  lemma {:induction false} CopiedAll(len: nat, want: nat, done: nat)
    requires want == done <= len
    ensures Least(want, len) == done && !RunsDry(len, want)
  {
  }

  /** The loop of mfile_copy; `file` is what the cursor of `src` can deliver. */
  method CopyLoop(dest: Mfile, src: Mfile, buffer: array<byte>, start: nat, end: nat,
                  ghost content: seq<byte>, ghost file: seq<byte>)
    returns (r: int)
    requires Separate(src, dest, buffer) && start < TWO_32 && end < TWO_32 && buffer.Length == 1024
    requires Copied(dest, src, content, file, 0)
    modifies dest.repr, buffer, src`isEmpty, src`readBlock, src`cur, src.blocks`readCount
    ensures Separate(src, dest, buffer) && fresh(dest.repr - old(dest.repr)) && dest.ccache == old(dest.ccache)
    ensures 0 <= Least(NotNegative(end - start), |file|)
    ensures Copied(dest, src, content, file, Least(NotNegative(end - start), |file|))
    ensures r == if RunsDry(|file|, NotNegative(end - start)) then -1 else ToInt(Wrap32(end - start))
  {
    hide Separate, Copied, ToInt, Wrap32, Least, FullPieces, RunsDry;
    NoPieces();
    var i := start;
    ghost var done := 0;
    while i < end
      invariant done == i - start && (i == start || i <= end) && (FullPieces(done) || i == end)
      invariant Separate(src, dest, buffer) && src.blocks == old(src.blocks) && fresh(dest.repr - old(dest.repr))
      invariant dest.ccache == old(dest.ccache)
      invariant done <= |file| && Copied(dest, src, content, file, done)
      decreases end - i
    {
      var j := if end - i < 1024 then end - i else 1024;
      var ret, n := CopyPiece(dest, src, buffer, j, content, file, done);
      PieceEnds(|file|, end - start, done, j, n);
      if ret <= 0 { return -1; }
      if ret < 1024 { return ToInt(Wrap32(end - start)); }
      i := i + j;
      done := done + j;
    }
    CopiedAll(|file|, NotNegative(end - start), done);
    return ToInt(Wrap32(end - start));
  }

  /** mfile_copy */
  method Copy(dest: Mfile, src: Mfile, start: nat, end: nat) returns (r: int)
    requires dest.Valid() && src.Valid() && dest.repr !! src.repr && start < TWO_32 && end < TWO_32
    requires |dest.Content()| + |src.Content()| < 0x8000_0000
    modifies dest.repr, src`isEmpty, src`readBlock, src`cur, src.blocks`readCount
    ensures dest.Valid() && src.Valid() && src.Content() == old(src.Content())
    ensures dest.repr !! src.repr && fresh(dest.repr - old(dest.repr)) && dest.ccache == old(dest.ccache)
    ensures
      var file := old(From(src.chunks, start));
      var want := NotNegative(end - start);
      && 0 <= Least(want, |file|)
      && dest.Content() == old(dest.Content()) + file[..Least(want, |file|)]
      && r == (if RunsDry(|file|, want) then -1 else ToInt(Wrap32(end - start)))
  {
    hide Mfile.Core, Mfile.Ready, Mfile.Stuck, Mfile.Deliverable, From, ToInt, Wrap32, RunsDry;
    var buffer := new byte[1024];
    ghost var content, file := dest.Content(), From(src.chunks, start);
    src.Copyable(start);
    dest.Owned();
    src.SeekPos(ToInt(start));
    assert file[0..] == file && content + file[..0] == content;
    r := CopyLoop(dest, src, buffer, start, end, content, file);
  }
}
