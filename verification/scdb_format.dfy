/** The bytes of an scdb file as a function of the list of (key, value) additions:
    a 2048-byte header, the records, and one hash table per bucket. */
module ScdbFormat {
  import opened Bytes
  import opened ScdbUtils
  import opened ScdbTable

  datatype Pair = Pair(key: seq<byte>, data: seq<byte>)

  const HEADER_SIZE: nat := 2048
  const BUCKETS: nat := 256

  function Record(a: Pair): (r: seq<byte>)
    ensures |r| == 8 + |a.key| + |a.data|
  {
    Pack(|a.key|) + Pack(|a.data|) + a.key + a.data
  }

  function Records(adds: seq<Pair>): seq<byte> {
    if adds == [] then [] else Records(adds[..|adds| - 1]) + Record(adds[|adds| - 1])
  }

  /** Where the record of the next addition goes. */
  function NextPos(adds: seq<Pair>): (p: nat)
    ensures HEADER_SIZE <= p
  {
    HEADER_SIZE + |Records(adds)|
  }

  /** The (hash, position) pair remembered for each addition. */
  function Entries(adds: seq<Pair>): (es: seq<Hp>)
    ensures |es| == |adds|
  {
    if adds == [] then []
    else
      var a0 := adds[..|adds| - 1];
      Entries(a0) + [Hp(HashOf(adds[|adds| - 1].key), NextPos(a0))]
  }

  /** The entries whose hash ends in the byte `b`, in order. */
  function Bucket(es: seq<Hp>, b: nat): (r: seq<Hp>)
    ensures |r| <= |es|
  {
    if es == [] then []
    else
      var e := es[|es| - 1];
      Bucket(es[..|es| - 1], b) + if e.h % 256 == b then [e] else []
  }

  function SlotBytes(e: Hp): (r: seq<byte>)
    ensures |r| == 8
  {
    Pack(e.h) + Pack(e.p)
  }

  function TableBytes(t: Table): (r: seq<byte>)
    ensures |r| == 8 * |t|
  {
    if t == [] then [] else TableBytes(t[..|t| - 1]) + SlotBytes(t[|t| - 1])
  }

  /** The table of one bucket: two slots per entry. */
  function TableOf(bucket: seq<Hp>): (t: Table)
    ensures |t| == 2 * |bucket|
  {
    if bucket == [] then [] else Fill(2 * |bucket|, bucket)
  }

  /** The tables of the first `n` buckets. */
  function TablesOf(es: seq<Hp>, n: nat): (ts: seq<Table>)
    ensures |ts| == n
    ensures forall b :: 0 <= b < n ==> ts[b] == TableOf(Bucket(es, b))
  {
    seq(n, b requires 0 <= b < n => TableOf(Bucket(es, b)))
  }

  /** The tables, one after another. */
  function Tables(ts: seq<Table>): seq<byte> {
    if ts == [] then [] else Tables(ts[..|ts| - 1]) + TableBytes(ts[|ts| - 1])
  }

  /** The address and the number of slots of each table, when the first one starts at `base`. */
  function Header(ts: seq<Table>, base: nat): (r: seq<byte>)
    ensures |r| == 8 * |ts|
  {
    if ts == [] then []
    else
      var t0 := ts[..|ts| - 1];
      Header(t0, base) + (Pack(base + |Tables(t0)|) + Pack(|ts[|ts| - 1]|))
  }

  /** Header, records, tables. */
  function Layout(records: seq<byte>, ts: seq<Table>): (r: seq<byte>)
    ensures |r| == 8 * |ts| + |records| + |Tables(ts)|
  {
    Header(ts, 8 * |ts| + |records|) + records + Tables(ts)
  }

  /** The whole file. */
  function Image(adds: seq<Pair>): seq<byte> {
    Layout(Records(adds), TablesOf(Entries(adds), BUCKETS))
  }

  // ---------- Reading the pieces back ----------

  lemma {:induction false} TableBytesAt(t: Table, s: nat)
    requires s < |t|
    ensures TableBytes(t)[8 * s..8 * s + 8] == SlotBytes(t[s])
  {
    var t0, e := t[..|t| - 1], t[|t| - 1];
    if s < |t0| {
      TableBytesAt(t0, s);
      SliceLeft(TableBytes(t0), SlotBytes(e), 8 * s, 8 * s + 8);
    }
  }

  lemma {:induction false} TablesAt(ts: seq<Table>, b: nat)
    requires b < |ts|
    ensures |Tables(ts[..b])| + |TableBytes(ts[b])| <= |Tables(ts)|
    ensures Tables(ts)[|Tables(ts[..b])|..|Tables(ts[..b])| + |TableBytes(ts[b])|] == TableBytes(ts[b])
  {
    hide TableBytes;
    var t0, last := ts[..|ts| - 1], TableBytes(ts[|ts| - 1]);
    if b < |t0| {
      TablesAt(t0, b);
      assert t0[..b] == ts[..b];
      SliceLeft(Tables(t0), last, |Tables(ts[..b])|, |Tables(ts[..b])| + |TableBytes(ts[b])|);
    } else {
      assert ts[..b] == t0;
    }
  }

  lemma {:induction false} HeaderAt(ts: seq<Table>, base: nat, b: nat)
    requires b < |ts|
    ensures Header(ts, base)[8 * b..8 * b + 8] == Pack(base + |Tables(ts[..b])|) + Pack(|ts[b]|)
  {
    hide Pack;
    var t0 := ts[..|ts| - 1];
    if b < |t0| {
      HeaderAt(t0, base, b);
      assert t0[..b] == ts[..b];
      SliceLeft(Header(t0, base), Pack(base + |Tables(t0)|) + Pack(|ts[|ts| - 1]|), 8 * b, 8 * b + 8);
    } else {
      assert ts[..b] == t0;
      var pair := Pack(base + |Tables(t0)|) + Pack(|ts[b]|);
      SliceRight(Header(t0, base), pair, 8 * b, 8 * b + 8);
      assert pair[0..8] == pair;
    }
  }

  lemma {:induction false} RecordAt(adds: seq<Pair>, i: nat)
    requires i < |adds|
    ensures |Records(adds[..i])| + |Record(adds[i])| <= |Records(adds)|
    ensures Records(adds)[|Records(adds[..i])|..|Records(adds[..i])| + |Record(adds[i])|] == Record(adds[i])
  {
    hide Record;
    var a0, last := adds[..|adds| - 1], Record(adds[|adds| - 1]);
    if i < |a0| {
      RecordAt(a0, i);
      assert a0[..i] == adds[..i];
      SliceLeft(Records(a0), last, |Records(adds[..i])|, |Records(adds[..i])| + |Record(adds[i])|);
    } else {
      assert adds[..i] == a0;
    }
  }

  lemma {:induction false} EntryAt(adds: seq<Pair>, i: nat)
    requires i < |adds|
    ensures Entries(adds)[i] == Hp(HashOf(adds[i].key), NextPos(adds[..i]))
  {
    var a0 := adds[..|adds| - 1];
    if i < |a0| {
      EntryAt(a0, i);
      assert a0[..i] == adds[..i];
    } else {
      assert adds[..i] == a0;
    }
  }

  lemma {:induction false} UnpackPair(s: seq<byte>, i: nat, u: nat, v: nat)
    requires u < TWO_32 && v < TWO_32 && i + 8 <= |s| && s[i..i + 8] == Pack(u) + Pack(v)
    ensures Unpack(s, i) == u && Unpack(s, i + 4) == v
  {
    SliceOfSlice(s, i, i + 8, 0, 4);
    SliceOfSlice(s, i, i + 8, 4, 8);
    PairParts(Pack(u), Pack(v));
    UnpackPack(u, s, i);
    UnpackPack(v, s, i + 4);
  }

  lemma {:induction false} PairParts(a: seq<byte>, b: seq<byte>)
    requires |a| == |b| == 4
    ensures (a + b)[0..4] == a && (a + b)[4..8] == b
  {
  }

  /** Header pair `b` names the address and the slot count of table `b`. */
  lemma {:induction false} LayoutHeader(records: seq<byte>, ts: seq<Table>, b: nat)
    requires b < |ts| && |Layout(records, ts)| < TWO_32
    ensures Unpack(Layout(records, ts), 8 * b) == 8 * |ts| + |records| + |Tables(ts[..b])|
    ensures Unpack(Layout(records, ts), 8 * b + 4) == |ts[b]|
  {
    hide Pack, Unpack;
    var base := 8 * |ts| + |records|;
    TablesAt(ts, b);
    HeaderAt(ts, base, b);
    SliceFirst(Header(ts, base), records, Tables(ts), 8 * b, 8 * b + 8);
    UnpackPair(Layout(records, ts), 8 * b, base + |Tables(ts[..b])|, |ts[b]|);
  }

  lemma {:induction false} SliceFirst(x: seq<byte>, y: seq<byte>, z: seq<byte>, a: nat, b: nat)
    requires a <= b <= |x|
    ensures (x + y + z)[a..b] == x[a..b]
  {
  }

  lemma {:induction false} SliceSecond(x: seq<byte>, y: seq<byte>, z: seq<byte>, a: nat, b: nat)
    requires a <= b <= |y|
    ensures (x + y + z)[|x| + a..|x| + b] == y[a..b]
  {
  }

  lemma {:induction false} SliceThird(x: seq<byte>, y: seq<byte>, z: seq<byte>, a: nat, b: nat)
    requires a <= b <= |z|
    ensures (x + y + z)[|x| + |y| + a..|x| + |y| + b] == z[a..b]
  {
  }

  lemma {:induction false} LayoutFits(records: seq<byte>, ts: seq<Table>, b: nat)
    requires b < |ts|
    ensures 8 * |ts| + |records| + |Tables(ts[..b])| + 8 * |ts[b]| <= |Layout(records, ts)|
  {
    TablesAt(ts, b);
  }

  /** Slot `s` of table `b` is stored at the table's address plus 8 * s. */
  lemma {:induction false} LayoutSlot(records: seq<byte>, ts: seq<Table>, b: nat, s: nat)
    requires b < |ts| && s < |ts[b]|
    ensures
      var at := 8 * |ts| + |records| + |Tables(ts[..b])| + 8 * s;
      at + 8 <= |Layout(records, ts)| && Layout(records, ts)[at..at + 8] == SlotBytes(ts[b][s])
  {
    var off := |Tables(ts[..b])|;
    TableSlotAt(ts, b, s);
    SliceThird(Header(ts, 8 * |ts| + |records|), records, Tables(ts), off + 8 * s, off + 8 * s + 8);
  }

  lemma {:induction false} TableSlotAt(ts: seq<Table>, b: nat, s: nat)
    requires b < |ts| && s < |ts[b]|
    ensures |Tables(ts[..b])| + 8 * s + 8 <= |Tables(ts)|
    ensures Tables(ts)[|Tables(ts[..b])| + 8 * s..|Tables(ts[..b])| + 8 * s + 8] == SlotBytes(ts[b][s])
  {
    var off := |Tables(ts[..b])|;
    TablesAt(ts, b);
    TableBytesAt(ts[b], s);
    SliceWithin(Tables(ts), off, TableBytes(ts[b]), 8 * s, 8 * s + 8);
  }

  /** What was in the records is 8 bytes per table further on in the file. */
  lemma {:induction false} LayoutRecords(records: seq<byte>, ts: seq<Table>, a: nat, part: seq<byte>)
    requires a + |part| <= |records| && records[a..a + |part|] == part
    ensures 8 * |ts| + a + |part| <= |Layout(records, ts)|
    ensures Layout(records, ts)[8 * |ts| + a..8 * |ts| + a + |part|] == part
  {
    SliceSecond(Header(ts, 8 * |ts| + |records|), records, Tables(ts), a, a + |part|);
  }

  lemma {:induction false} ImageSlice(adds: seq<Pair>, a: nat, part: seq<byte>)
    requires a + |part| <= |Records(adds)| && Records(adds)[a..a + |part|] == part
    ensures HEADER_SIZE + a + |part| <= |Image(adds)|
    ensures Image(adds)[HEADER_SIZE + a..HEADER_SIZE + a + |part|] == part
  {
    LayoutRecords(Records(adds), TablesOf(Entries(adds), BUCKETS), a, part);
  }

  /** The record of addition `i` is at its remembered position. */
  lemma {:induction false} ImageRecord(adds: seq<Pair>, i: nat)
    requires i < |adds|
    ensures NextPos(adds[..i]) + |Record(adds[i])| <= |Image(adds)|
    ensures Image(adds)[NextPos(adds[..i])..NextPos(adds[..i]) + |Record(adds[i])|] == Record(adds[i])
  {
    hide Record, Image;
    RecordAt(adds, i);
    ImageSlice(adds, |Records(adds[..i])|, Record(adds[i]));
  }

  // ---------- Every entry is in the table of its bucket ----------

  lemma {:induction false} BucketMembers(es: seq<Hp>, b: nat, e: Hp)
    ensures e in Bucket(es, b) <==> e in es && e.h % 256 == b
  {
    if es != [] {
      BucketMembers(es[..|es| - 1], b, e);
      assert es == es[..|es| - 1] + [es[|es| - 1]];
    }
  }

  lemma {:induction false} PositionsWithSnoc(b: seq<Hp>, e: Hp, h: nat)
    ensures PositionsWith(b + [e], h) == PositionsWith(b, h) + if e.h == h then [e.p] else []
  {
    assert (b + [e])[..|b|] == b;
  }

  lemma {:induction false} BucketPositions(es: seq<Hp>, h: nat)
    ensures PositionsWith(Bucket(es, h % 256), h) == PositionsWith(es, h)
  {
    if es != [] {
      var es0, e, b := es[..|es| - 1], es[|es| - 1], h % 256;
      BucketPositions(es0, h);
      if e.h % 256 == b {
        PositionsWithSnoc(Bucket(es0, b), e, h);
      } else {
        assert Bucket(es, b) == Bucket(es0, b);
      }
    }
  }

  lemma {:induction false} EntriesPlaced(adds: seq<Pair>, b: nat)
    ensures AllPlaced(Entries(adds)) && AllPlaced(Bucket(Entries(adds), b))
  {
    forall i | 0 <= i < |adds| ensures Entries(adds)[i].p != 0 {
      EntryAt(adds, i);
    }
    var bucket := Bucket(Entries(adds), b);
    forall i | 0 <= i < |bucket| ensures bucket[i].p != 0 {
      BucketMembers(Entries(adds), b, bucket[i]);
    }
  }

  /** The table of `h`'s bucket shows a probe for `h` the positions of all additions with hash `h`, oldest first. */
  lemma {:induction false} TableShows(adds: seq<Pair>, h: nat)
    ensures
      var t := TableOf(Bucket(Entries(adds), h % 256));
      PositionsWith(Entries(adds), h) == if t == [] then [] else Hits(t, h, 0)
  {
    var bucket := Bucket(Entries(adds), h % 256);
    BucketPositions(Entries(adds), h);
    EntriesPlaced(adds, h % 256);
    if bucket != [] { FillHits(2 * |bucket|, bucket, h); }
  }

  // ---------- Size of the file ----------

  /** The number of entries in the buckets below `n`. */
  function BucketSum(es: seq<Hp>, n: nat): nat {
    if n == 0 then 0 else BucketSum(es, n - 1) + |Bucket(es, n - 1)|
  }

  lemma {:induction false} TablesCount(es: seq<Hp>, ts: seq<Table>)
    requires forall b :: 0 <= b < |ts| ==> |ts[b]| == 2 * |Bucket(es, b)|
    ensures |Tables(ts)| == 16 * BucketSum(es, |ts|)
  {
    hide Bucket, TableBytes;
    if ts != [] { TablesCount(es, ts[..|ts| - 1]); }
  }

  lemma {:induction false} BucketSumStep(es: seq<Hp>, e: Hp, n: nat)
    ensures BucketSum(es + [e], n) == BucketSum(es, n) + if e.h % 256 < n then 1 else 0
  {
    if n > 0 {
      BucketSumStep(es, e, n - 1);
      assert (es + [e])[..|es + [e]| - 1] == es;
    }
  }

  lemma {:induction false} BucketSumEmpty(n: nat)
    ensures BucketSum([], n) == 0
  {
    if n > 0 { BucketSumEmpty(n - 1); }
  }

  /** With all 256 buckets, every entry is counted once. */
  lemma {:induction false} BucketSizesSum(es: seq<Hp>, n: nat)
    requires 256 <= n
    ensures BucketSum(es, n) == |es|
  {
    if es == [] {
      BucketSumEmpty(n);
    } else {
      var es0, e := es[..|es| - 1], es[|es| - 1];
      BucketSizesSum(es0, n);
      BucketSumStep(es0, e, n);
      assert es == es0 + [e];
    }
  }

  lemma {:induction false} TablesSize(es: seq<Hp>, n: nat)
    requires 256 <= n
    ensures |Tables(TablesOf(es, n))| == 16 * |es|
  {
    TablesCount(es, TablesOf(es, n));
    BucketSizesSum(es, n);
  }

  /** The tables together have two slots of eight bytes per addition. */
  lemma {:induction false} ImageSize(adds: seq<Pair>)
    ensures |Image(adds)| == NextPos(adds) + 16 * |adds|
  {
    TablesSize(Entries(adds), BUCKETS);
  }
}
