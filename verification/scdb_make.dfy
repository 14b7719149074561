/** c/lib/scdb/scdb_make.c: the writer. */
module ScdbMake {
  import opened Bytes
  import opened ScdbUtils
  import opened ScdbTable
  import opened ScdbFormat
  import opened ScdbBuffer
  import opened ScdbScatter

  // ---------- Filling one table in place ----------

  /** The loop that stores one entry: from its home on to the first free slot. The table is split[base..base + len]. */
  method StoreEntry(split: array<Hp>, base: nat, len: nat, e: Hp)
    requires 0 < len && base + len <= split.Length
    requires FindFree(split[base..base + len], Home(e.h, len), 0) < len
    modifies split
    ensures split[base..base + len] == Insert(old(split[base..base + len]), e)
    ensures split[..base] == old(split[..base])
  {
    hide Home;
    ghost var t := split[base..base + len];
    ghost var home := Home(e.h, len);
    ghost var k := 0;
    var where := e.h / 256 % len;
    HomeIs(e.h, len);
    while split[base + where].p != 0
      invariant 0 <= k <= FindFree(t, home, 0) && where == Slot(home, k, len)
      decreases FindFree(t, home, 0) - k
    {
      assert t[where] == split[base + where];
      where := where + 1;
      if where == len { where := 0; }
      k := k + 1;
    }
    assert t[where] == split[base + where];
    split[base + where] := e;
    assert split[base..base + len] == t[where := e];
  }

  lemma {:induction false} HomeIs(h: nat, len: nat)
    requires 0 < len
    ensures Home(h, len) == h / 256 % len
  {
  }

  /** The loops that clear a bucket's table and store the bucket's entries in it. */
  method FillTable(split: array<Hp>, base: nat, from: nat, count: nat)
    requires from + count <= base && base + 2 * count <= split.Length
    requires AllPlaced(split[from..from + count])
    modifies split
    ensures split[base..base + 2 * count] == TableOf(old(split[from..from + count]))
    ensures split[..base] == old(split[..base])
  {
    hide Home, Insert;
    var len := count + count;
    ghost var bucket := split[from..from + count];
    ghost var front := split[..base];
    for u := 0 to len
      invariant forall s :: base <= s < base + u ==> split[s] == BLANK
      invariant split[..base] == front
    {
      split[base + u] := BLANK;
    }
    assert split[base..base + len] == seq(len, _ => BLANK);
    assert bucket[..0] == [];
    for u := 0 to count
      invariant len > 0 ==> split[base..base + len] == Fill(len, bucket[..u])
      invariant split[..base] == front
    {
      var e := split[from + u];
      assert e == front[from + u] == bucket[u];
      assert bucket[..u + 1][..u] == bucket[..u];
      FillHasRoom(len, bucket[..u], Home(e.h, len));
      StoreEntry(split, base, len, e);
    }
    assert bucket[..count] == bucket;
  }

  // ---------- Sizes ----------

  /** The number of slots that finish allocates: the entries, and room for the largest table. */
  function MemSize(count: seq<nat>, numentries: nat): nat {
    LargestTable(count) + numentries
  }

  function LargestTable(count: seq<nat>): (m: nat)
    ensures 1 <= m
    ensures forall b :: 0 <= b < |count| ==> 2 * count[b] <= m
    ensures m == 1 || exists b :: 0 <= b < |count| && m == 2 * count[b]
  {
    if count == [] then 1
    else
      var c0, last := count[..|count| - 1], count[|count| - 1];
      var m0 := LargestTable(c0);
      assert forall b :: 0 <= b < |c0| ==> count[b] == c0[b];
      if 2 * last > m0 then 2 * last else m0
  }

  /** sizeof(struct scdb_hp) is 8, so at most this many fit in 32 bits. */
  const MAX_SLOTS: nat := 536870911

  /** When everything fits in the 32-bit file, the allocation is within bounds too. */
  lemma {:induction false} FileBoundsMemory(count: seq<nat>, adds: seq<Pair>)
    requires Counted(count, Entries(adds)) && |Image(adds)| < TWO_32
    ensures MemSize(count, |adds|) <= MAX_SLOTS
  {
    hide Image, Counted, Entries, MemSize;
    ImageSize(adds);
    RecordsSize(adds);
    MemSizeBound(count, adds);
  }

  /** For all additions that the writer accepts, also when the tables no longer fit in the file, the number of slots
      does not wrap. */
  lemma {:induction false} MemoryNeverWraps(count: seq<nat>, adds: seq<Pair>)
    requires Counted(count, Entries(adds)) && NextPos(adds) < TWO_32
    ensures MemSize(count, |adds|) < TWO_32
    ensures forall b :: 0 <= b < |count| ==> 2 * count[b] < TWO_32
  {
    hide Records, Counted, Entries, LargestTable;
    RecordsSize(adds);
    MemSizeBound(count, adds);
  }

  lemma {:induction false} MemSizeBound(count: seq<nat>, adds: seq<Pair>)
    requires Counted(count, Entries(adds))
    ensures MemSize(count, |adds|) <= 1 + 3 * |adds|
  {
    hide Bucket, Entries, LargestTable;
    forall b | 0 <= b < |count| ensures count[b] <= |adds| {
      assert count[b] == |Bucket(Entries(adds), b)|;
    }
    LargestBound(count, |adds|);
  }

  lemma {:induction false} LargestBound(count: seq<nat>, n: nat)
    requires forall b :: 0 <= b < |count| ==> count[b] <= n
    ensures LargestTable(count) <= 1 + 2 * n
  {
  }

  lemma {:induction false} RecordsSize(adds: seq<Pair>)
    ensures 8 * |adds| <= |Records(adds)|
  {
    hide Record;
    if adds != [] { RecordsSize(adds[..|adds| - 1]); }
  }

  lemma {:induction false} NothingAdded()
    ensures Records([]) == [] && Entries([]) == [] && NextPos([]) == HEADER_SIZE
  {
  }

  lemma {:induction false} NoTableBytes(t: Table)
    ensures TableBytes(t[..0]) == []
  {
  }

  lemma {:induction false} MoreTableBytes(t: Table, u: nat)
    requires u < |t|
    ensures TableBytes(t[..u + 1]) == TableBytes(t[..u]) + (Pack(t[u].h) + Pack(t[u].p))
  {
    assert t[..u + 1][..u] == t[..u];
  }

  // ---------- The writer ----------

  class Maker {
    const b: Buffer
    const count: array<nat>
    const start: array<nat>
    const header: array<byte>
    var head: HpList?
    var numentries: nat
    var pos: nat
    /** The additions made so far. */
    ghost var adds: seq<Pair>

    ghost predicate Shape()
      reads this
    {
      && count.Length == start.Length == BUCKETS && header.Length == HEADER_SIZE
      && count != start && header != b.x
      && Footprint(head) !! {this, b, b.x, b.file, count, start, header}
    }

    ghost predicate Valid()
      reads this, b, b.x, b.file, head, Footprint(head)
    {
      && Shape() && b.Valid() && b.base == [] && b.start == HEADER_SIZE
      && ValidList(head) && EntriesOf(head) == Entries(adds) && numentries == |adds|
      && pos == NextPos(adds) < TWO_32 && b.put == Records(adds)
    }

    /** scdb_make_start, on a file just created. */
    constructor (file: File)
      requires file.bytes == []
      modifies file
      ensures Valid() && adds == [] && head == null && b.file == file && file.plan == old(file.plan)
      ensures fresh(b) && fresh(b.x) && fresh(count) && fresh(start) && fresh(header)
    {
      hide Overwrite, Records, Entries, NextPos, Buffer.Valid;
      NothingAdded();
      file.Seek(HEADER_SIZE);
      b := new Buffer(file);
      count := new nat[256];
      start := new nat[256];
      header := new byte[2048];
      head := null;
      numentries := 0;
      pos := HEADER_SIZE;
      adds := [];
      new;
      assert Footprint(head) == {} && EntriesOf(head) == [];
      assert Shape();
    }

    /** posplus: refuses exactly the additions that would wrap around. */
    method PosPlus(len: nat) returns (r: int)
      requires pos < TWO_32 && len < TWO_32
      modifies this`pos
      ensures r == 0 || r == -1
      ensures r == 0 <==> old(pos) + len < TWO_32
      ensures pos == if r == 0 then old(pos) + len else old(pos)
    {
      var newpos := Wrap32(pos + len);
      if newpos < len { return -1; }
      pos := newpos;
      return 0;
    }

    /** The first half of scdb_make_addend: remembers hash and position, in a new chunk when the last one is full. */
    method Remember(h: nat)
      requires Shape() && ValidList(head)
      modifies this`head, this`numentries, Footprint(head)
      ensures Shape() && ValidList(head) && fresh(Footprint(head) - old(Footprint(head)))
      ensures EntriesOf(head) == old(EntriesOf(head)) + [Hp(h, pos)] && numentries == old(numentries) + 1
    {
      var chunk := head;
      if chunk == null || chunk.num >= HPLIST {
        chunk := new HpList(head);
        head := chunk;
      }
      chunk.Append(Hp(h, pos));
      numentries := numentries + 1;
    }

    /** scdb_make_addend */
    method AddEnd(keylen: nat, datalen: nat, h: nat) returns (r: int)
      requires Shape() && ValidList(head) && pos < TWO_32 && keylen < TWO_32 && datalen < TWO_32
      modifies this`head, this`numentries, this`pos, Footprint(head)
      ensures r == 0 || r == -1
      ensures r == 0 <==> old(pos) + 8 + keylen + datalen < TWO_32
      ensures r == 0 ==> pos == old(pos) + 8 + keylen + datalen
      ensures Shape() && ValidList(head) && fresh(Footprint(head) - old(Footprint(head)))
      ensures EntriesOf(head) == old(EntriesOf(head)) + [Hp(h, old(pos))] && numentries == old(numentries) + 1
    {
      Remember(h);
      r := PosPlus(8);
      if r == -1 { return; }
      r := PosPlus(keylen);
      if r == -1 { return; }
      r := PosPlus(datalen);
    }

    /** scdb_make_addbegin */
    method AddBegin(keylen: nat, datalen: nat) returns (r: int)
      requires b.Valid()
      modifies b`p, b`put, b.x, b.file
      ensures r == 0 || r == -1
      ensures r == 0 ==> b.Valid() && b.put == old(b.put) + (Pack(keylen) + Pack(datalen))
      ensures Failed !in old(b.file.plan) ==> r == 0 && Failed !in b.file.plan
    {
      hide Pack, Overwrite;
      var buf := PackPair(keylen, datalen);
      r := b.PutAlign(buf);
    }

    /** The first three statements of scdb_make_add: the record goes to the buffer. */
    method PutRecord(key: seq<byte>, data: seq<byte>) returns (r: int)
      requires b.Valid() && |key| < TWO_32 && |data| < TWO_32
      modifies b`p, b`put, b.x, b.file
      ensures r == 0 || r == -1
      ensures r == 0 ==> b.Valid() && b.put == old(b.put) + Record(Pair(key, data))
      ensures Failed !in old(b.file.plan) ==> r == 0 && Failed !in b.file.plan
    {
      hide Pack, Overwrite;
      r := AddBegin(|key|, |data|);
      if r == -1 { return; }
      r := b.PutAlign(key);
      if r == -1 { return; }
      r := b.PutAlign(data);
    }

    /** scdb_make_add: with a working disk it succeeds exactly when the file stays below 4 GB. */
    method Add(key: seq<byte>, data: seq<byte>) returns (r: int)
      requires Valid() && |key| < TWO_32 && |data| < TWO_32
      modifies this`head, this`numentries, this`pos, this`adds, b`p, b`put, b.x, b.file, Footprint(head)
      ensures r == 0 || r == -1
      ensures r == 0 ==> Valid() && adds == old(adds) + [Pair(key, data)]
      ensures r == 0 ==> NextPos(adds) < TWO_32 && fresh(Footprint(head) - old(Footprint(head)))
      ensures Failed !in old(b.file.plan) ==>
        (r == 0 <==> NextPos(old(adds) + [Pair(key, data)]) < TWO_32) && Failed !in b.file.plan
    {
      hide Record, Overwrite, Entries, Records, NextPos;
      AddedRecord(adds, Pair(key, data));
      r := PutRecord(key, data);
      if r == -1 { return; }
      var h := ScdbHash(key);
      r := AddEnd(|key|, |data|, h);
      adds := adds + [Pair(key, data)];
    }

    /** The emission loop for one table: the slots go to the buffer and the position moves on. */
    method EmitTable(split: array<Hp>, base: nat, len: nat) returns (r: int)
      requires b.Valid() && pos < TWO_32 && base + len <= split.Length
      modifies this`pos, b`p, b`put, b.x, b.file
      ensures r == 0 || r == -1
      ensures r == 0 ==> b.Valid() && b.put == old(b.put) + TableBytes(split[base..base + len])
      ensures r == 0 ==> pos == old(pos) + 8 * len < TWO_32
      ensures Failed !in old(b.file.plan) ==> (r == 0 <==> old(pos) + 8 * len < TWO_32) && Failed !in b.file.plan
    {
      hide Pack, Overwrite, TableBytes, SlotBytes, Buffer.Valid;
      ghost var t := split[base..base + len];
      NoTableBytes(t);
      for u := 0 to len
        invariant b.Valid() && b.put == old(b.put) + TableBytes(t[..u])
        invariant pos == old(pos) + 8 * u < TWO_32
        invariant Failed !in old(b.file.plan) ==> Failed !in b.file.plan
      {
        var e := split[base + u];
        MoreTableBytes(t, u);
        var buf := PackPair(e.h, e.p);
        r := b.PutAlign(buf);
        if r == -1 { return; }
        r := PosPlus(8);
        if r == -1 { return; }
      }
      assert t[..len] == t;
      return 0;
    }

    /** One round of the last loop of finish: the header pair of bucket `i`, its table, and the table's bytes. */
    method EmitBucket(i: nat, split: array<Hp>) returns (r: int)
      requires Shape() && b.Valid() && pos < TWO_32 && i < BUCKETS
      requires start[i] + count[i] <= numentries && numentries + 2 * count[i] <= split.Length
      requires AllPlaced(split[start[i]..start[i] + count[i]])
      modifies this`pos, header, split, b`p, b`put, b.x, b.file
      ensures r == 0 || r == -1
      ensures split[..numentries] == old(split[..numentries])
      ensures
        var t := TableOf(old(split[start[i]..start[i] + count[i]]));
        && (r == 0 ==>
          && b.Valid() && b.put == old(b.put) + TableBytes(t) && pos == old(pos) + 8 * |t| < TWO_32
          && header[..8 * i + 8] == old(header[..8 * i]) + (Pack(old(pos)) + Pack(|t|)))
        && (Failed !in old(b.file.plan) ==> (r == 0 <==> old(pos) + 8 * |t| < TWO_32) && Failed !in b.file.plan)
    {
      hide Pack, Overwrite, TableOf, TableBytes;
      var n := count[i];
      var len := n + n;
      Uint32Pack(header, 8 * i, pos);
      ghost var h1 := header[..8 * i + 4];
      assert h1 == old(header[..8 * i]) + Pack(pos);
      Uint32Pack(header, 8 * i + 4, len);
      assert header[..8 * i + 8] == h1 + Pack(len);
      FillTable(split, numentries, start[i], n);
      r := EmitTable(split, numentries, len);
    }

    /** The state of finish when the tables of the first `i` buckets are out. */
    ghost predicate Emitted(ts: seq<Table>, i: nat)
      reads this, b, b.x, b.file, header
    {
      && Shape() && b.Valid() && i <= |ts| && 8 * |ts| == HEADER_SIZE
      && b.put == Records(adds) + Tables(ts[..i])
      && pos == NextPos(adds) + |Tables(ts[..i])| < TWO_32
      && header[..8 * i] == Header(ts[..i], NextPos(adds))
    }

    /** The last loop's invariant is kept by one round. */
    method EmitNext(i: nat, split: array<Hp>, ghost ts: seq<Table>) returns (r: int)
      requires Emitted(ts, i) && i < BUCKETS
      requires start[i] + count[i] <= numentries && numentries + 2 * count[i] <= split.Length
      requires AllPlaced(split[start[i]..start[i] + count[i]]) && TableOf(split[start[i]..start[i] + count[i]]) == ts[i]
      modifies this`pos, header, split, b`p, b`put, b.x, b.file
      ensures r == 0 || r == -1
      ensures split[..numentries] == old(split[..numentries])
      ensures r == 0 ==> Emitted(ts, i + 1)
      ensures Failed !in old(b.file.plan) && NextPos(adds) + |Tables(ts)| < TWO_32 ==> r == 0
      ensures Failed !in old(b.file.plan) ==> Failed !in b.file.plan
    {
      hide Pack, Overwrite, TableOf, TableBytes, Records, NextPos, Tables, Header;
      OneMoreTable(ts, i, NextPos(adds));
      r := EmitBucket(i, split);
    }

    /** The last loop of finish. */
    method EmitBuckets(split: array<Hp>, ghost ts: seq<Table>) returns (r: int)
      requires Valid() && split !in Footprint(head)
      requires Counted(count[..], Entries(adds)) && Placed(split[..], start[..], Entries(adds), 0)
      requires numentries + LargestTable(count[..]) <= split.Length
      requires ts == TablesOf(Entries(adds), BUCKETS)
      modifies this`pos, header, split, b`p, b`put, b.x, b.file
      ensures r == 0 || r == -1
      ensures r == 0 ==> Emitted(ts, BUCKETS)
      ensures Failed !in old(b.file.plan) && NextPos(adds) + |Tables(ts)| < TWO_32 ==> r == 0
      ensures Failed !in old(b.file.plan) ==> Failed !in b.file.plan
    {
      hide Overwrite, TableOf, Bucket, Entries, Placed, TablesOf, LargestTable, Emitted, Counted;
      ghost var front := split[..];
      NothingEmitted(ts);
      for i := 0 to BUCKETS
        invariant Emitted(ts, i) && split[..numentries] == front[..numentries]
        invariant Failed !in old(b.file.plan) ==> Failed !in b.file.plan
      {
        BucketReady(front, start[..], count[..], Entries(adds), i);
        EntriesPlaced(adds, i);
        SliceOfSlice(front, 0, numentries, start[i], start[i] + count[i]);
        SliceOfSlice(split[..], 0, numentries, start[i], start[i] + count[i]);
        r := EmitNext(i, split, ts);
        if r == -1 { return; }
      }
      return 0;
    }

    lemma {:induction false} NothingEmitted(ts: seq<Table>)
      requires Valid() && |ts| == BUCKETS
      ensures Emitted(ts, 0)
    {
      assert ts[..0] == [];
    }

    /** The beginning of finish: the size of each bucket and the number of slots to allocate. */
    method MemoryNeeded() returns (memsize: nat)
      requires Valid()
      modifies count
      ensures Valid() && Counted(count[..], Entries(adds)) && memsize == MemSize(count[..], numentries)
    {
      hide Entries, Records, Counted, LargestTable, NextPos;
      CountBuckets(head, count);
      MemoryNeverWraps(count[..], adds);
      memsize := LargestTableOf(count);
      memsize := Wrap32(memsize + numentries);
    }

    /** scdb_make_finish: with a working disk it succeeds exactly when the whole file stays below 4 GB,
        and then the file is the image of the additions. */
    method Finish() returns (r: int)
      requires Valid()
      modifies this`pos, header, count, start, b`p, b`put, b.x, b.file
      ensures r == 0 || r == -1
      ensures r == 0 ==> b.file.bytes == Image(adds) && |Image(adds)| < TWO_32
      ensures Failed !in old(b.file.plan) ==> (r == 0 <==> |Image(adds)| < TWO_32)
    {
      hide Pack, Overwrite, Entries, Records, Counted, Placed, LargestTable, Header, Tables, NextPos, Image;
      ghost var ts := TablesOf(Entries(adds), BUCKETS);
      var memsize := MemoryNeeded();
      if |Image(adds)| < TWO_32 { FileBoundsMemory(count[..], adds); }
      if memsize > MAX_SLOTS { return -1; }
      var split := new Hp[memsize](_ => BLANK);
      Scatter(head, count, start, split);
      ImageParts(adds, ts);
      r := EmitBuckets(split, ts);
      if r == -1 { return; }
      assert ts[..BUCKETS] == ts;
      r := WriteOut(ts);
    }

    /** The end of finish: what is left in the buffer, then the header at the start of the file. */
    method WriteOut(ghost ts: seq<Table>) returns (r: int)
      requires Emitted(ts, BUCKETS) && |ts| == BUCKETS && b.base == [] && b.start == HEADER_SIZE
      modifies b`p, b.file
      ensures r == 0 || r == -1
      ensures r == 0 ==> b.file.bytes == Header(ts, NextPos(adds)) + (Records(adds) + Tables(ts))
      ensures Failed !in old(b.file.plan) ==> r == 0
    {
      hide Overwrite, Records, Header, Tables, NextPos;
      assert ts[..BUCKETS] == ts && header[..8 * BUCKETS] == header[..];
      r := b.Flush();
      if r == -1 { return; }
      FinalImage(b.put, header[..]);
      b.file.Seek(0);
      assert b.x[..0] == [];
      OverwriteNothing(b.file.bytes, 0);
      assert b.put[..|b.put| - 0] == b.put;
      r := b.PutFlush(header[..]);
    }
  }

  /** The first loops' maximum: as many slots as the largest table needs, and at least one. */
  method LargestTableOf(count: array<nat>) returns (m: nat)
    requires count.Length == BUCKETS && forall b :: 0 <= b < BUCKETS ==> 2 * count[b] < TWO_32
    ensures m == LargestTable(count[..])
  {
    m := 1;
    for i := 0 to 256
      invariant m == LargestTable(count[..i])
    {
      assert count[..i + 1][..i] == count[..i];
      var u := Wrap32(count[i] * 2);
      if u > m { m := u; }
    }
    assert count[..256] == count[..];
  }

  /** After the scatter, the entries of bucket `i` are where its start says, and there is room for its table. */
  lemma {:induction false} BucketReady(split: seq<Hp>, start: seq<nat>, count: seq<nat>, es: seq<Hp>, i: nat)
    requires Placed(split, start, es, 0) && Counted(count, es) && i < BUCKETS
    ensures |start| == |count| == BUCKETS && start[i] + count[i] <= |es| <= |split|
    ensures 2 * count[i] <= LargestTable(count)
    ensures split[start[i]..start[i] + count[i]] == Bucket(es, i)
  {
    hide Bucket, BucketSum, LargestTable, Placed;
    PlacedLength(split, start, es, 0);
    AllInPlace(split, start, es, i);
  }

  /** The tables and the header words grow by one bucket at a time, within the final size. */
  lemma {:induction false} OneMoreTable(ts: seq<Table>, i: nat, base: nat)
    requires i < |ts|
    ensures Tables(ts[..i + 1]) == Tables(ts[..i]) + TableBytes(ts[i])
    ensures Header(ts[..i + 1], base) == Header(ts[..i], base) + (Pack(base + |Tables(ts[..i])|) + Pack(|ts[i]|))
    ensures |Tables(ts[..i])| + 8 * |ts[i]| <= |Tables(ts)|
  {
    hide Pack, TableBytes;
    assert ts[..i + 1][..i] == ts[..i];
    TablesAt(ts, i);
  }

  lemma {:induction false} ImageParts(adds: seq<Pair>, ts: seq<Table>)
    requires ts == TablesOf(Entries(adds), BUCKETS)
    ensures Image(adds) == Header(ts, NextPos(adds)) + (Records(adds) + Tables(ts))
    ensures |Image(adds)| == NextPos(adds) + |Tables(ts)|
  {
    hide Header, Records, Tables, TablesOf, Entries;
  }

  /** Records and tables written from offset 2048 on, then the header at offset 0. */
  lemma {:induction false} FinalImage(put: seq<byte>, header: seq<byte>)
    requires |header| == HEADER_SIZE
    ensures Overwrite(Overwrite([], HEADER_SIZE, put), 0, header) == header + put
  {
  }

  /** The eight bytes that stand for two numbers. */
  method PackPair(u: nat, v: nat) returns (s: seq<byte>)
    ensures s == Pack(u) + Pack(v)
  {
    hide Pack;
    var buf := new byte[8];
    Uint32Pack(buf, 0, u);
    assert buf[0..4] == Pack(u);
    Uint32Pack(buf, 4, v);
    s := buf[..];
    assert s == buf[..4] + buf[4..8];
  }

  lemma {:induction false} AddedRecord(adds: seq<Pair>, a: Pair)
    ensures Records(adds + [a]) == Records(adds) + Record(a)
    ensures Entries(adds + [a]) == Entries(adds) + [Hp(HashOf(a.key), NextPos(adds))]
    ensures NextPos(adds + [a]) == NextPos(adds) + 8 + |a.key| + |a.data|
  {
    assert (adds + [a])[..|adds|] == adds;
  }
}
