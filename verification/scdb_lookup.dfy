/** Reading back what was added: the reader of c/lib/scdb/scdb.c against the file of c/lib/scdb/scdb_make.c. */
module ScdbLookup {
  import opened Options
  import opened Bytes
  import opened ScdbUtils
  import opened ScdbTable
  import opened ScdbFormat
  import opened ScdbReader

  // ---------- Comparing keys ----------

  /** Whether the block-wise strncmp comparison takes two keys of the same length for equal. */
  predicate SameKey(stored: seq<byte>, key: seq<byte>)
    requires |stored| == |key|
    decreases |key|
  {
    key == [] ||
    var n := BlockLength(|key|);
    StrncmpEqual(stored[..n], key[..n]) && SameKey(stored[n..], key[n..])
  }

  lemma {:induction false} StrncmpExact(a: seq<byte>, b: seq<byte>)
    requires |a| == |b| && NoNul(b)
    ensures StrncmpEqual(a, b) <==> a == b
  {
    if a != [] {
      StrncmpExact(a[1..], b[1..]);
      assert a == [a[0]] + a[1..] && b == [b[0]] + b[1..];
    }
  }

  lemma {:induction false} StrncmpReflexive(a: seq<byte>)
    ensures StrncmpEqual(a, a)
  {
    if a != [] { StrncmpReflexive(a[1..]); }
  }

  lemma {:induction false} SameKeyReflexive(key: seq<byte>)
    ensures SameKey(key, key)
    decreases |key|
  {
    if key != [] {
      StrncmpReflexive(key[..BlockLength(|key|)]);
      SameKeyReflexive(key[BlockLength(|key|)..]);
    }
  }

  /** For a key without NULs the comparison is equality, whatever the stored key is. */
  lemma {:induction false} SameKeyExact(stored: seq<byte>, key: seq<byte>)
    requires |stored| == |key| && NoNul(key)
    ensures SameKey(stored, key) <==> stored == key
    decreases |key|
  {
    if key != [] {
      var n := BlockLength(|key|);
      StrncmpExact(stored[..n], key[..n]);
      SameKeyExact(stored[n..], key[n..]);
      assert stored == stored[..n] + stored[n..] && key == key[..n] + key[n..];
    }
  }

  /** The keys agree at `i`, or a NUL came before it. */
  predicate Agree(stored: seq<byte>, key: seq<byte>, i: nat)
    requires |stored| == |key| && i < |key|
  {
    stored[i] == key[i] || NUL in key[..i]
  }

  /** The keys agree at `i`, or a NUL came before it in the same block of 32 bytes. */
  predicate AgreeInBlock(stored: seq<byte>, key: seq<byte>, i: nat)
    requires |stored| == |key| && i < |key|
  {
    stored[i] == key[i] || NUL in key[i / 32 * 32..i]
  }

  lemma {:induction false} StrncmpIs(a: seq<byte>, b: seq<byte>)
    requires |a| == |b|
    ensures StrncmpEqual(a, b) <==> forall i :: 0 <= i < |b| ==> Agree(a, b, i)
  {
    if a != [] {
      StrncmpIs(a[1..], b[1..]);
      assert Agree(a, b, 0) <==> a[0] == b[0];
      if b[0] == NUL {
        forall i | 1 <= i < |b| ensures Agree(a, b, i) { assert b[..i][0] == NUL; }
      } else {
        forall i | 1 <= i < |b| ensures Agree(a, b, i) <==> Agree(a[1..], b[1..], i - 1) {
          assert b[..i] == [b[0]] + b[1..][..i - 1];
        }
        assert forall i :: 0 <= i < |b[1..]| ==> (Agree(a[1..], b[1..], i) <==> Agree(a, b, i + 1));
      }
    }
  }

  lemma {:induction false} FirstBlock(stored: seq<byte>, key: seq<byte>, i: nat)
    requires |stored| == |key| && i < BlockLength(|key|)
    ensures
      var n := BlockLength(|key|);
      AgreeInBlock(stored, key, i) <==> Agree(stored[..n], key[..n], i)
  {
    assert key[0..i] == key[..BlockLength(|key|)][..i];
  }

  lemma {:induction false} LaterBlock(stored: seq<byte>, key: seq<byte>, i: nat)
    requires |stored| == |key| && COMPARE_BLOCK <= i < |key|
    ensures AgreeInBlock(stored, key, i) <==>
      AgreeInBlock(stored[COMPARE_BLOCK..], key[COMPARE_BLOCK..], i - COMPARE_BLOCK)
  {
    var j := i - COMPARE_BLOCK;
    assert i / COMPARE_BLOCK == j / COMPARE_BLOCK + 1;
    var from := j / COMPARE_BLOCK * COMPARE_BLOCK;
    assert key[COMPARE_BLOCK..][from..j] == key[from + COMPARE_BLOCK..i];
  }

  /** The block-wise comparison in closed form: in every block of 32 bytes the keys are equal up to the first NUL. */
  lemma {:induction false} SameKeyIs(stored: seq<byte>, key: seq<byte>)
    requires |stored| == |key|
    ensures SameKey(stored, key) <==> forall i :: 0 <= i < |key| ==> AgreeInBlock(stored, key, i)
    decreases |key|
  {
    hide Agree, AgreeInBlock, StrncmpEqual;
    if key != [] {
      var n := BlockLength(|key|);
      StrncmpIs(stored[..n], key[..n]);
      SameKeyIs(stored[n..], key[n..]);
      forall i | 0 <= i < n ensures AgreeInBlock(stored, key, i) <==> Agree(stored[..n], key[..n], i) {
        FirstBlock(stored, key, i);
      }
      forall i | n <= i < |key| ensures AgreeInBlock(stored, key, i) <==> AgreeInBlock(stored[n..], key[n..], i - n) {
        LaterBlock(stored, key, i);
      }
      assert forall i :: 0 <= i < |key[n..]| ==>
        (AgreeInBlock(stored[n..], key[n..], i) <==> AgreeInBlock(stored, key, i + n));
    }
  }

  lemma {:induction false} MatchIsSameKey(map_: seq<byte>, key: seq<byte>, pos: nat)
    requires pos + |key| <= |map_| < TWO_32
    ensures Match(map_, key, pos) == Some(SameKey(map_[pos..pos + |key|], key))
    decreases |key|
  {
    if key != [] {
      var n := BlockLength(|key|);
      var stored := map_[pos..pos + |key|];
      assert stored[..n] == map_[pos..pos + n];
      assert stored[n..] == map_[pos + n..pos + n + |key[n..]|];
      MatchIsSameKey(map_, key[n..], pos + n);
    }
  }

  // ---------- What a lookup should give ----------

  /** The additions that scdb_findnext takes for additions of `key`. */
  predicate Found(a: Pair, key: seq<byte>) {
    HashOf(a.key) == HashOf(key) && |a.key| == |key| && SameKey(a.key, key)
  }

  /** The values of those additions, oldest first. */
  function Answers(adds: seq<Pair>, key: seq<byte>): seq<seq<byte>> {
    if adds == [] then []
    else
      var a := adds[|adds| - 1];
      Answers(adds[..|adds| - 1], key) + if Found(a, key) then [a.data] else []
  }

  /** The values added under `key`, oldest first. */
  function Values(adds: seq<Pair>, key: seq<byte>): seq<seq<byte>> {
    if adds == [] then []
    else
      var a := adds[|adds| - 1];
      Values(adds[..|adds| - 1], key) + if a.key == key then [a.data] else []
  }

  /** For a key without NULs the answers are exactly the values added under it. */
  lemma {:induction false} AnswersAreValues(adds: seq<Pair>, key: seq<byte>)
    requires NoNul(key)
    ensures Answers(adds, key) == Values(adds, key)
  {
    if adds != [] {
      var a := adds[|adds| - 1];
      AnswersAreValues(adds[..|adds| - 1], key);
      if |a.key| == |key| { SameKeyExact(a.key, key); }
    }
  }

  // ---------- The records that a probe selects ----------

  /** Those of the positions `ps` whose record has the key. */
  function Sieve(map_: seq<byte>, key: seq<byte>, ps: seq<nat>): seq<nat> {
    if ps == [] then []
    else (if RecordHasKey(map_, key, ps[0]) == Some(true) then [ps[0]] else []) + Sieve(map_, key, ps[1..])
  }

  lemma {:induction false} SieveAppend(map_: seq<byte>, key: seq<byte>, ps: seq<nat>, qs: seq<nat>)
    ensures Sieve(map_, key, ps + qs) == Sieve(map_, key, ps) + Sieve(map_, key, qs)
  {
    hide Sieve;
    if ps == [] {
      SieveNothing(map_, key);
      assert ps + qs == qs;
    } else {
      SieveAppend(map_, key, ps[1..], qs);
      assert ps == [ps[0]] + ps[1..] && ps + qs == [ps[0]] + (ps[1..] + qs);
      var here := SieveCons(map_, key, ps[0], ps[1..] + qs);
      var same := SieveCons(map_, key, ps[0], ps[1..]);
    }
  }

  lemma {:induction false} SieveNothing(map_: seq<byte>, key: seq<byte>)
    ensures Sieve(map_, key, []) == []
  {
  }

  /** `here` is the contribution of the first position. */
  lemma {:induction false} SieveCons(map_: seq<byte>, key: seq<byte>, p: nat, ps: seq<nat>) returns (here: seq<nat>)
    ensures here == (if RecordHasKey(map_, key, p) == Some(true) then [p] else [])
    ensures Sieve(map_, key, [p] + ps) == here + Sieve(map_, key, ps)
  {
    here := if RecordHasKey(map_, key, p) == Some(true) then [p] else [];
    assert ([p] + ps)[1..] == ps;
  }

  /** A well-formed record at `p`: what the reader sees there. */
  lemma {:induction false} RecordRead(map_: seq<byte>, p: nat, a: Pair, key: seq<byte>)
    requires |map_| < TWO_32 && p + |Record(a)| <= |map_| && map_[p..p + |Record(a)|] == Record(a)
    ensures RecordHasKey(map_, key, p) == Some(|a.key| == |key| && SameKey(a.key, key))
    ensures StoredDataLength(map_, p) == |a.data|
    ensures map_[p + 8 + |a.key|..p + 8 + |a.key| + |a.data|] == a.data
  {
    hide Record, SameKey, Match, Pack, Unpack;
    var rec := map_[p..p + 8];
    SliceWithin(map_, p, Record(a), 0, 8);
    SliceWithin(map_, p, Record(a), 8, 8 + |a.key|);
    SliceWithin(map_, p, Record(a), 8 + |a.key|, 8 + |a.key| + |a.data|);
    RecordParts(a);
    assert rec == Pack(|a.key|) + Pack(|a.data|);
    assert rec[0..8] == rec;
    UnpackPair(rec, 0, |a.key|, |a.data|);
    if |a.key| == |key| { MatchIsSameKey(map_, key, p + 8); }
  }

  lemma {:induction false} RecordParts(a: Pair)
    ensures Record(a)[0..8] == Pack(|a.key|) + Pack(|a.data|)
    ensures Record(a)[8..8 + |a.key|] == a.key
    ensures Record(a)[8 + |a.key|..8 + |a.key| + |a.data|] == a.data
  {
  }

  /** The positions of the additions found, oldest first. */
  function FoundAt(adds: seq<Pair>, key: seq<byte>): (ps: seq<nat>)
    ensures |ps| == |Answers(adds, key)|
  {
    if adds == [] then []
    else
      var a0 := adds[..|adds| - 1];
      FoundAt(a0, key) + if Found(adds[|adds| - 1], key) then [NextPos(a0)] else []
  }

  /** What the reader sees of an added record. */
  lemma {:induction false} AddedRecordRead(adds: seq<Pair>, i: nat, key: seq<byte>)
    requires i < |adds| && |Image(adds)| < TWO_32
    ensures
      var img, p, a := Image(adds), NextPos(adds[..i]), adds[i];
      && RecordHasKey(img, key, p) == Some(|a.key| == |key| && SameKey(a.key, key))
      && StoredDataLength(img, p) == |a.data|
      && p + 8 + |a.key| + |a.data| <= |img|
      && img[p + 8 + |a.key|..p + 8 + |a.key| + |a.data|] == a.data
  {
    hide Image, RecordHasKey, StoredDataLength, SameKey;
    ImageRecord(adds, i);
    RecordRead(Image(adds), NextPos(adds[..i]), adds[i], key);
  }

  /** Each found position leads to its answer. */
  lemma {:induction false} FoundAtRecords(adds: seq<Pair>, n: nat, key: seq<byte>, k: nat)
    requires n <= |adds| && |Image(adds)| < TWO_32
    requires k < |FoundAt(adds[..n], key)|
    ensures
      var p, v, img := FoundAt(adds[..n], key)[k], Answers(adds[..n], key)[k], Image(adds);
      && p + 8 + |key| + |v| <= |img|
      && StoredDataLength(img, p) == |v|
      && img[p + 8 + |key|..p + 8 + |key| + |v|] == v
  {
    hide Image, StoredDataLength, NextPos, HashOf, SameKey;
    var a0 := adds[..n - 1];
    assert adds[..n][..n - 1] == a0;
    if k < |FoundAt(a0, key)| {
      FoundAtRecords(adds, n - 1, key, k);
    } else {
      AddedRecordRead(adds, n - 1, key);
    }
  }

  lemma {:induction false} EntriesSnoc(adds: seq<Pair>, h: nat)
    requires adds != []
    ensures
      var a0, a := adds[..|adds| - 1], adds[|adds| - 1];
      PositionsWith(Entries(adds), h) ==
        PositionsWith(Entries(a0), h) + if HashOf(a.key) == h then [NextPos(a0)] else []
  {
    var a0, a := adds[..|adds| - 1], adds[|adds| - 1];
    PositionsWithSnoc(Entries(a0), Hp(HashOf(a.key), NextPos(a0)), h);
  }

  lemma {:induction false} SieveSnoc(map_: seq<byte>, key: seq<byte>, ps: seq<nat>, p: nat)
    ensures Sieve(map_, key, ps + [p]) ==
      Sieve(map_, key, ps) + if RecordHasKey(map_, key, p) == Some(true) then [p] else []
  {
    SieveAppend(map_, key, ps, [p]);
  }

  lemma {:induction false} SieveFindsOneMore(adds: seq<Pair>, n: nat, key: seq<byte>)
    requires n < |adds| && |Image(adds)| < TWO_32
    requires Sieve(Image(adds), key, PositionsWith(Entries(adds[..n]), HashOf(key))) == FoundAt(adds[..n], key)
    ensures Sieve(Image(adds), key, PositionsWith(Entries(adds[..n + 1]), HashOf(key))) == FoundAt(adds[..n + 1], key)
  {
    hide Image, RecordHasKey, Entries, HashOf, PositionsWith, NextPos, Sieve;
    var a0 := adds[..n];
    assert adds[..n + 1][..n] == a0;
    EntriesSnoc(adds[..n + 1], HashOf(key));
    AddedRecordRead(adds, n, key);
    var ps := PositionsWith(Entries(a0), HashOf(key));
    SieveSnoc(Image(adds), key, ps, NextPos(a0));
    assert ps + [] == ps;
  }

  /** Sieving the positions with the key's hash leaves the positions found. */
  lemma {:induction false} SieveFindsAll(adds: seq<Pair>, n: nat, key: seq<byte>)
    requires n <= |adds| && |Image(adds)| < TWO_32
    ensures Sieve(Image(adds), key, PositionsWith(Entries(adds[..n]), HashOf(key))) == FoundAt(adds[..n], key)
  {
    hide Image, HashOf;
    if n > 0 {
      SieveFindsAll(adds, n - 1, key);
      SieveFindsOneMore(adds, n - 1, key);
    } else {
      assert adds[..n] == [];
    }
  }

  // ---------- Where a cursor stands ----------

  /** The table that lookups of `key` probe. */
  function KeyTable(adds: seq<Pair>, key: seq<byte>): Table {
    TableOf(Bucket(Entries(adds), HashOf(key) % 256))
  }

  /** Where that table starts in the file. */
  function KeyTableAt(adds: seq<Pair>, key: seq<byte>): nat {
    NextPos(adds) + |Tables(TablesOf(Entries(adds), BUCKETS)[..HashOf(key) % 256])|
  }

  /** The cursor has consumed `k` slots of the key's table. */
  ghost predicate Ready(adds: seq<Pair>, key: seq<byte>, c: Cursor, k: nat) {
    var t := KeyTable(adds, key);
    && k <= |t| && c.loop == k && c.hslots == |t| && c.khash == HashOf(key)
    && c.hpos == KeyTableAt(adds, key)
    && (k < |t| ==> c.kpos == c.hpos + 8 * Slot(Home(HashOf(key), |t|), k, |t|))
  }

  /** The cursor of a lookup in progress; with loop 0 the other fields do not matter yet. */
  ghost predicate InLookup(adds: seq<Pair>, key: seq<byte>, c: Cursor, k: nat) {
    if c.loop == 0 then k == 0 else Ready(adds, key, c, k) && Open(adds, key, k)
  }

  /** Slot `k` can be probed: nothing before it was free. */
  ghost predicate Open(adds: seq<Pair>, key: seq<byte>, k: nat) {
    var t := KeyTable(adds, key);
    forall i :: 0 <= i < k <= |t| ==> !Free(t, Slot(Home(HashOf(key), |t|), i, |t|))
  }

  /** The positions the key's table still has to offer after `k` slots. */
  function Rest(adds: seq<Pair>, key: seq<byte>, k: nat): seq<nat> {
    var t := KeyTable(adds, key);
    if k <= |t| then Sieve(Image(adds), key, Hits(t, HashOf(key), k)) else []
  }

  /** What the table of the key looks like in the file. */
  lemma {:induction false} KeyTableLayout(adds: seq<Pair>, key: seq<byte>)
    requires |Image(adds)| < TWO_32
    ensures
      var img, t, at, b := Image(adds), KeyTable(adds, key), KeyTableAt(adds, key), HashOf(key) % 256;
      && Unpack(img, 8 * b) == at && Unpack(img, 8 * b + 4) == |t|
      && at + 8 * |t| <= |img|
      && forall s :: 0 <= s < |t| ==> img[at + 8 * s..at + 8 * s + 8] == SlotBytes(t[s])
  {
    hide TableOf, Bucket, Entries, HashOf, Records, Layout;
    var ts, b := TablesOf(Entries(adds), BUCKETS), HashOf(key) % 256;
    LayoutHeader(Records(adds), ts, b);
    LayoutFits(Records(adds), ts, b);
    forall s | 0 <= s < |ts[b]|
      ensures
        var at := KeyTableAt(adds, key) + 8 * s;
        at + 8 <= |Image(adds)| && Image(adds)[at..at + 8] == SlotBytes(ts[b][s])
    {
      LayoutSlot(Records(adds), ts, b, s);
    }
  }

  // ---------- One probing step, and the whole loop ----------

  /** Reading slot `k` of the probe gives its hash and position back. */
  lemma {:induction false} SlotRead(adds: seq<Pair>, key: seq<byte>, c: Cursor, k: nat)
    requires |Image(adds)| < TWO_32 && Ready(adds, key, c, k) && k < |KeyTable(adds, key)|
    ensures
      var t := KeyTable(adds, key);
      var e := t[Slot(Home(HashOf(key), |t|), k, |t|)];
      var r := ReadAt(Image(adds), c.kpos, 8);
      && r.Some?
      && (e.h < TWO_32 && e.p < TWO_32 ==> Unpack(r.value, 0) == e.h && Unpack(r.value, 4) == e.p)
  {
    hide Image, KeyTable, KeyTableAt, HashOf, Home, Unpack, Pack;
    var t := KeyTable(adds, key);
    var s := Slot(Home(HashOf(key), |t|), k, |t|);
    KeyTableLayout(adds, key);
    var r := ReadAt(Image(adds), c.kpos, 8).value;
    assert r == SlotBytes(t[s]) == r[0..8];
    if t[s].h < TWO_32 && t[s].p < TWO_32 { UnpackPair(r, 0, t[s].h, t[s].p); }
  }

  lemma {:induction false} AdvanceReady(adds: seq<Pair>, key: seq<byte>, c: Cursor, k: nat)
    requires |Image(adds)| < TWO_32 && Ready(adds, key, c, k) && k < |KeyTable(adds, key)|
    ensures Ready(adds, key, Advance(c), k + 1)
  {
    hide Image, KeyTable, KeyTableAt, HashOf, Home;
    KeyTableLayout(adds, key);
  }

  /** Hashes and positions in the tables fit in 32 bits. */
  lemma {:induction false} TableWords(adds: seq<Pair>, key: seq<byte>, s: nat)
    requires |Image(adds)| < TWO_32 && s < |KeyTable(adds, key)|
    ensures KeyTable(adds, key)[s].h < TWO_32 && KeyTable(adds, key)[s].p < TWO_32
  {
    hide HashOf, Bucket, Fill, Entries, Image, NextPos;
    var es, t := Entries(adds), KeyTable(adds, key);
    var bucket := Bucket(es, HashOf(key) % 256);
    EntriesPlaced(adds, HashOf(key) % 256);
    FillHolds(2 * |bucket|, bucket);
    assert t[s] in multiset(t);
    if t[s] != BLANK {
      assert t[s] in bucket;
      BucketMembers(es, HashOf(key) % 256, t[s]);
      var i :| 0 <= i < |es| && es[i] == t[s];
      EntryAt(adds, i);
      ImageRecord(adds, i);
    }
  }

  /** The positions in the key's table with the key's hash are positions of added records. */
  lemma {:induction false} PositionsAreRecords(adds: seq<Pair>, n: nat, h: nat, p: nat)
    requires n <= |adds| && p in PositionsWith(Entries(adds[..n]), h)
    ensures exists i: nat :: i < n && p == NextPos(adds[..i])
  {
    hide NextPos, HashOf;
    if n > 0 {
      var a0 := adds[..n - 1];
      assert adds[..n][..n - 1] == a0;
      EntriesSnoc(adds[..n], h);
      if p in PositionsWith(Entries(a0), h) { PositionsAreRecords(adds, n - 1, h, p); }
    }
  }

  lemma {:induction false} HitIsLater(t: Table, h: nat, j: nat, k: nat)
    requires 0 < |t| && j <= k < |t|
    requires forall i :: j <= i <= k ==> !Free(t, Slot(Home(h, |t|), i, |t|))
    requires t[Slot(Home(h, |t|), k, |t|)].h == h
    ensures t[Slot(Home(h, |t|), k, |t|)].p in Hits(t, h, j)
    decreases k - j
  {
    hide Home;
    if j < k { HitIsLater(t, h, j + 1, k); }
  }

  /** A probed slot with the key's hash holds the position of an added record, so its record can be read. */
  lemma {:induction false} HitIsReadable(adds: seq<Pair>, key: seq<byte>, k: nat)
    requires |Image(adds)| < TWO_32 && k < |KeyTable(adds, key)| && Open(adds, key, k)
    requires
      var t := KeyTable(adds, key);
      var e := t[Slot(Home(HashOf(key), |t|), k, |t|)];
      e.p != 0 && e.h == HashOf(key)
    ensures
      var t := KeyTable(adds, key);
      RecordHasKey(Image(adds), key, t[Slot(Home(HashOf(key), |t|), k, |t|)].p).Some?
  {
    hide Image, Home, RecordHasKey, Entries, NextPos;
    var t, h := KeyTable(adds, key), HashOf(key);
    var p := t[Slot(Home(h, |t|), k, |t|)].p;
    HitIsLater(t, h, 0, k);
    TableShows(adds, h);
    assert adds[..|adds|] == adds;
    PositionsAreRecords(adds, |adds|, h, p);
    var i: nat :| i < |adds| && p == NextPos(adds[..i]);
    AddedRecordRead(adds, i, key);
  }

  /** The outcome of scdb_findnext when the positions still to come are `rest`; `k` slots are consumed afterwards. */
  ghost predicate Outcome(adds: seq<Pair>, key: seq<byte>, rest: seq<nat>, r: Step, k: nat) {
    && InLookup(adds, key, r.c, k)
    && if rest == [] then r.code == 0 && Rest(adds, key, k) == []
       else
         && r.code == 1 && Rest(adds, key, k) == rest[1..]
         && r.c.dpos == Wrap32(rest[0] + 8 + |key|) && r.c.dlen == StoredDataLength(Image(adds), rest[0])
  }

  /** One slot: either the loop stops here, or it goes on with the same positions to come. */
  lemma {:induction false} ProbeOnce(adds: seq<Pair>, key: seq<byte>, c: Cursor, k: nat) returns (stop: bool, k': nat)
    requires |Image(adds)| < TWO_32
    requires Ready(adds, key, c, k) && Open(adds, key, k) && k < |KeyTable(adds, key)|
    ensures stop ==> Outcome(adds, key, Rest(adds, key, k), Scan(Image(adds), c, key), k')
    ensures !stop ==>
      && Scan(Image(adds), c, key) == Scan(Image(adds), Advance(c), key)
      && Rest(adds, key, k) == Rest(adds, key, k + 1) && Open(adds, key, k + 1)
  {
    hide Image, KeyTable, KeyTableAt, HashOf, Home, RecordHasKey, StoredDataLength, Unpack;
    var t, h := KeyTable(adds, key), HashOf(key);
    var s := Slot(Home(h, |t|), k, |t|);
    SlotRead(adds, key, c, k);
    TableWords(adds, key, s);
    if t[s].p == 0 {
      return true, k;
    }
    AdvanceReady(adds, key, c, k);
    assert Open(adds, key, k + 1);
    if t[s].h == h {
      HitIsReadable(adds, key, k);
      assert Hits(t, h, k) == [t[s].p] + Hits(t, h, k + 1);
      SieveAppend(Image(adds), key, [t[s].p], Hits(t, h, k + 1));
      return RecordHasKey(Image(adds), key, t[s].p).value, k + 1;
    }
    assert Hits(t, h, k) == Hits(t, h, k + 1);
    return false, k + 1;
  }

  /** The probing loop delivers the next of the positions to come. */
  lemma {:induction false} ScanRuns(adds: seq<Pair>, key: seq<byte>, c: Cursor, k: nat) returns (k': nat)
    requires |Image(adds)| < TWO_32 && Ready(adds, key, c, k) && Open(adds, key, k)
    ensures Outcome(adds, key, Rest(adds, key, k), Scan(Image(adds), c, key), k')
    decreases |KeyTable(adds, key)| - k
  {
    hide Image, KeyTable, KeyTableAt, HashOf, Home, RecordHasKey, StoredDataLength;
    if k == |KeyTable(adds, key)| {
      return k;
    }
    var stop;
    stop, k' := ProbeOnce(adds, key, c, k);
    if !stop {
      AdvanceReady(adds, key, c, k);
      k' := ScanRuns(adds, key, Advance(c), k + 1);
    }
  }

  /** Where the reader looks for the header pair is where the writer put it. */
  lemma {:induction false} BucketAddress(u: nat)
    requires u < TWO_32
    ensures Wrap32(u * 8) % 2048 == 8 * (u % 256)
  {
  }

  /** scdb_findnext, at any point of a lookup, delivers the next of the positions to come. */
  lemma {:induction false} FindNextRuns(adds: seq<Pair>, key: seq<byte>, c: Cursor, k: nat) returns (k': nat)
    requires |Image(adds)| < TWO_32 && InLookup(adds, key, c, k)
    ensures Outcome(adds, key, Rest(adds, key, k), FindNextStep(Image(adds), c, key), k')
  {
    hide Image, KeyTable, KeyTableAt, HashOf, RecordHasKey, StoredDataLength, Unpack;
    if c.loop != 0 {
      k' := ScanRuns(adds, key, c, k);
      return;
    }
    var img, t, u, at := Image(adds), KeyTable(adds, key), HashOf(key), KeyTableAt(adds, key);
    BucketAddress(u);
    KeyTableLayout(adds, key);
    ImageHasHeader(adds);
    var buf := ReadAt(img, 8 * (u % 256), 8).value;
    UnpackSlice(img, 8 * (u % 256), buf);
    if t == [] {
      return 0;
    }
    var c1 := c.(hslots := |t|, hpos := at, khash := u, kpos := at + u / 256 % |t| * 8);
    assert Ready(adds, key, c1, 0);
    k' := ScanRuns(adds, key, c1, 0);
  }

  lemma {:induction false} ImageHasHeader(adds: seq<Pair>)
    ensures 8 * BUCKETS <= |Image(adds)|
  {
  }

  lemma {:induction false} UnpackSlice(s: seq<byte>, i: nat, buf: seq<byte>)
    requires i + 8 <= |s| && buf == s[i..i + 8]
    ensures Unpack(buf, 0) == Unpack(s, i) && Unpack(buf, 4) == Unpack(s, i + 4)
  {
  }

  // ---------- The theorem ----------

  /** A lookup starts with everything found still to come. */
  lemma {:induction false} RestAtStart(adds: seq<Pair>, key: seq<byte>)
    requires |Image(adds)| < TWO_32
    ensures Rest(adds, key, 0) == FoundAt(adds, key)
  {
    hide Image, HashOf;
    assert adds[..|adds|] == adds;
    SieveFindsAll(adds, |adds|, key);
    TableShows(adds, HashOf(key));
  }

  /** The outcome of scdb_find followed by `n` calls of scdb_findnext. */
  function Call(map_: seq<byte>, c: Cursor, key: seq<byte>, n: nat): Step {
    if n == 0 then FindNextStep(map_, c.(loop := 0), key)
    else FindNextStep(map_, Call(map_, c, key, n - 1).c, key)
  }

  lemma {:induction false} CallRuns(adds: seq<Pair>, key: seq<byte>, c: Cursor, n: nat) returns (k: nat)
    requires |Image(adds)| < TWO_32
    ensures
      var all, r := FoundAt(adds, key), Call(Image(adds), c, key, n);
      && Outcome(adds, key, if n <= |all| then all[n..] else [], r, k)
  {
    hide Image, KeyTable, KeyTableAt, HashOf, RecordHasKey, StoredDataLength, FindNextStep;
    var all := FoundAt(adds, key);
    if n == 0 {
      RestAtStart(adds, key);
      assert all[0..] == all;
      k := FindNextRuns(adds, key, c.(loop := 0), 0);
    } else {
      var before := CallRuns(adds, key, c, n - 1);
      if n <= |all| { assert all[n - 1..][1..] == all[n..]; }
      k := FindNextRuns(adds, key, Call(Image(adds), c, key, n - 1).c, before);
    }
  }

  /** Looking up a key in a finished file: call number `n` (counting from 0) returns 1 and points at answer
      number `n` while there is one, and returns 0 from then on. No call fails, and no call consumes more
      slots than the table has. */
  lemma {:induction false} LookupAnswers(adds: seq<Pair>, key: seq<byte>, c: Cursor, n: nat)
    requires |Image(adds)| < TWO_32
    ensures
      var img, r, answers := Image(adds), Call(Image(adds), c, key, n), Answers(adds, key);
      && r.c.loop <= |KeyTable(adds, key)|
      && if n < |answers| then
           && r.code == 1 && r.c.dlen == |answers[n]|
           && r.c.dpos + r.c.dlen <= |img| && img[r.c.dpos..r.c.dpos + r.c.dlen] == answers[n]
         else r.code == 0
  {
    hide Image, KeyTable, KeyTableAt, HashOf, StoredDataLength, Call;
    var k := CallRuns(adds, key, c, n);
    assert adds[..|adds|] == adds;
    if n < |Answers(adds, key)| { FoundAtRecords(adds, |adds|, key, n); }
  }

  /** A key without NULs: successive calls deliver exactly the values added under it, in insertion order, then 0. */
  lemma {:induction false} LookupValues(adds: seq<Pair>, key: seq<byte>, c: Cursor, n: nat)
    requires |Image(adds)| < TWO_32 && NoNul(key)
    ensures
      var img, r, values := Image(adds), Call(Image(adds), c, key, n), Values(adds, key);
      if n < |values| then
        && r.code == 1 && r.c.dlen == |values[n]|
        && r.c.dpos + r.c.dlen <= |img| && img[r.c.dpos..r.c.dpos + r.c.dlen] == values[n]
      else r.code == 0
  {
    hide Image, Call;
    AnswersAreValues(adds, key);
    LookupAnswers(adds, key, c, n);
  }

  /** scdb_get_alloc gives the oldest value of a key without NULs, and nothing when there is none. */
  lemma {:induction false} FirstMatchIsFirstValue(adds: seq<Pair>, key: seq<byte>)
    requires |Image(adds)| < TWO_32 && NoNul(key)
    ensures
      var values := Values(adds, key);
      FirstMatch(Image(adds), key) == if values == [] then None else Some(values[0])
  {
    hide Image, FindNextStep;
    LookupValues(adds, key, NO_LOOKUP, 0);
    assert NO_LOOKUP.(loop := 0) == NO_LOOKUP;
    assert Call(Image(adds), NO_LOOKUP, key, 0) == FindNextStep(Image(adds), NO_LOOKUP, key);
  }

  // ---------- Keys with a NUL ----------

  /** Another key with the same hash and length that differs from `key` only behind a NUL of the same block. */
  ghost predicate Impostor(other: seq<byte>, key: seq<byte>) {
    && other != key && HashOf(other) == HashOf(key) && |other| == |key|
    && forall i :: 0 <= i < |key| ==> AgreeInBlock(other, key, i)
  }

  ghost predicate NoImpostor(adds: seq<Pair>, key: seq<byte>) {
    forall i :: 0 <= i < |adds| ==> !Impostor(adds[i].key, key)
  }

  lemma {:induction false} ImpostorIsFound(a: Pair, key: seq<byte>)
    ensures Impostor(a.key, key) <==> Found(a, key) && a.key != key
  {
    hide HashOf, SameKey, AgreeInBlock;
    if |a.key| == |key| { SameKeyIs(a.key, key); }
  }

  /** In general the answers are the values exactly when no other stored key passes for this one. */
  lemma {:induction false} AnswersExactWhen(adds: seq<Pair>, key: seq<byte>)
    ensures Answers(adds, key) == Values(adds, key) <==> NoImpostor(adds, key)
    ensures |Values(adds, key)| <= |Answers(adds, key)|
  {
    hide HashOf, SameKey, Impostor;
    if adds != [] {
      var a0, a := adds[..|adds| - 1], adds[|adds| - 1];
      AnswersExactWhen(a0, key);
      SameKeyReflexive(key);
      ImpostorIsFound(a, key);
      assert adds == a0 + [a];
      assert NoImpostor(adds, key) <==> NoImpostor(a0, key) && !Impostor(a.key, key) by {
        if NoImpostor(adds, key) {
          forall i | 0 <= i < |a0| ensures !Impostor(a0[i].key, key) { assert adds[i] == a0[i]; }
          assert adds[|a0|] == a;
        }
      }
      var more, same := if Found(a, key) then [a.data] else [], if a.key == key then [a.data] else [];
      if more == same && Answers(a0, key) + more == Values(a0, key) + same {
        assert Answers(a0, key) == (Answers(a0, key) + more)[..|Answers(a0, key)|];
        assert Values(a0, key) == (Values(a0, key) + same)[..|Values(a0, key)|];
      }
    }
  }

  /** Such keys exist: the only key of the file is another one, and yet the lookup succeeds and gives its value. */
  lemma {:induction false} NulKeysMixedUp(c: Cursor)
    ensures
      var stored: seq<byte>, key: seq<byte>, value: seq<byte> := [0, 2, 32], [0, 3, 1], [7];
      var adds := [Pair(stored, value)];
      var img, r := Image(adds), Call(Image(adds), c, key, 0);
      && Values(adds, key) == [] && |img| < TWO_32 && r.code == 1 && r.c.dlen == 1
      && r.c.dpos < |img| && img[r.c.dpos..r.c.dpos + 1] == value
  {
    hide Image, Call;
    var stored: seq<byte>, key: seq<byte>, value: seq<byte> := [0, 2, 32], [0, 3, 1], [7];
    var adds := [Pair(stored, value)];
    MixedUpAnswers(stored, key, value);
    ImageSize(adds);
    AddedRecord(Pair(stored, value));
    LookupAnswers(adds, key, c, 0);
  }

  lemma {:induction false} AddedRecord(a: Pair)
    ensures |Records([a])| == 8 + |a.key| + |a.data|
  {
    assert [a][..0] == [];
  }

  lemma {:induction false} MixedUpAnswers(stored: seq<byte>, key: seq<byte>, value: seq<byte>)
    requires stored == [0, 2, 32] && key == [0, 3, 1]
    ensures Answers([Pair(stored, value)], key) == [value] && Values([Pair(stored, value)], key) == []
  {
    var zero: seq<byte> := [0];
    assert Hash(stored) == Hash(key) by {
      assert stored[..2] == [0, 2] && key[..2] == [0, 3];
      assert stored[..2][..1] == zero == key[..2][..1];
      assert zero[..0] == [];
      assert Hash(zero) == 177573;
      assert Hash(stored[..2]) == 5859911 && Hash(key[..2]) == 5859910;
    }
    assert stored[..3] == stored && key[..3] == key;
    assert SameKey(stored, key);
    var adds := [Pair(stored, value)];
    assert adds[..0] == [];
  }
}
