/** How scdb_make_finish distributes the remembered entries over the buckets (c/lib/scdb/scdb_make.c:104-146):
    the entries sit in a list of chunks that is walked from the newest to the oldest. */
module ScdbScatter {
  import opened ScdbTable
  import opened ScdbFormat

  const HPLIST: nat := 1000

  /** struct scdb_hplist: a chunk of entries, newest chunk first. */
  class HpList {
    const hp: array<Hp>
    const next: HpList?
    var num: nat
    /** All entries from the oldest chunk up to this one. */
    ghost var entries: seq<Hp>
    ghost const Repr: set<object>

    ghost predicate Valid()
      reads this, Repr
      ensures Valid() ==> this in Repr && hp in Repr
      decreases Repr
    {
      && this in Repr && hp in Repr && hp.Length == HPLIST && num <= HPLIST
      && (next == null ==> entries == hp[..num])
      && (next != null ==>
        && next in Repr && next.Repr <= Repr - {this, hp} && next.Valid()
        && entries == next.entries + hp[..num])
    }

    constructor (next: HpList?)
      requires next == null || next.Valid()
      ensures Valid() && num == 0 && this.next == next
      ensures entries == if next == null then [] else next.entries
      ensures fresh(this) && fresh(hp)
      ensures Repr == {this, hp} + if next == null then {} else next.Repr
    {
      hp := new Hp[HPLIST](_ => BLANK);
      this.next := next;
      num := 0;
      entries := if next == null then [] else next.entries;
      Repr := {this, hp} + if next == null then {} else next.Repr;
      new;
      assert hp[..0] == [];
    }

    /** Stores one more entry in this chunk. */
    method Append(e: Hp)
      requires Valid() && num < HPLIST
      modifies this, hp
      ensures Valid() && entries == old(entries) + [e] && num == old(num) + 1
    {
      hp[num] := e;
      num := num + 1;
      entries := entries + [e];
      assert hp[..num] == old(hp[..num]) + [e];
    }
  }

  ghost function EntriesOf(x: HpList?): seq<Hp>
    reads x
  {
    if x == null then [] else x.entries
  }

  ghost predicate ValidList(x: HpList?)
    reads x, if x == null then {} else x.Repr
  {
    x == null || x.Valid()
  }

  ghost function Footprint(x: HpList?): set<object> {
    if x == null then {} else x.Repr
  }

  // ---------- Bucket sizes ----------

  lemma {:induction false} BucketAppend(s: seq<Hp>, t: seq<Hp>, b: nat)
    ensures Bucket(s + t, b) == Bucket(s, b) + Bucket(t, b)
  {
    if t == [] {
      assert s + t == s;
    } else {
      var t0, e := t[..|t| - 1], t[|t| - 1];
      BucketAppend(s, t0, b);
      assert (s + t)[..|s + t| - 1] == s + t0;
    }
  }

  /** One more entry at the front. */
  lemma {:induction false} BucketCons(es: seq<Hp>, m: nat, b: nat)
    requires 0 < m <= |es|
    ensures Bucket(es[m - 1..], b) == (if es[m - 1].h % 256 == b then [es[m - 1]] else []) + Bucket(es[m..], b)
  {
    assert es[m - 1..] == [es[m - 1]] + es[m..];
    BucketAppend([es[m - 1]], es[m..], b);
    assert Bucket([es[m - 1]], b) == if es[m - 1].h % 256 == b then [es[m - 1]] else [] by {
      assert [es[m - 1]][..0] == [];
    }
  }

  lemma {:induction false} BucketSuffix(es: seq<Hp>, m: nat, b: nat)
    requires m <= |es|
    ensures Bucket(es, b) == Bucket(es[..m], b) + Bucket(es[m..], b)
  {
    assert es == es[..m] + es[m..];
    BucketAppend(es[..m], es[m..], b);
  }

  ghost predicate Counted(count: seq<nat>, es: seq<Hp>) {
    |count| == BUCKETS && forall b :: 0 <= b < BUCKETS ==> count[b] == |Bucket(es, b)|
  }

  lemma {:induction false} CountOne(count: seq<nat>, es: seq<Hp>, m: nat)
    requires 0 < m <= |es| && Counted(count, es[m..])
    ensures
      var b := es[m - 1].h % 256;
      Counted(count[b := count[b] + 1], es[m - 1..])
  {
    hide Bucket;
    forall b | 0 <= b < BUCKETS
      ensures |Bucket(es[m - 1..], b)| == |Bucket(es[m..], b)| + if es[m - 1].h % 256 == b then 1 else 0
    {
      BucketCons(es, m, b);
    }
  }

  lemma {:induction false} NothingCounted(count: seq<nat>)
    requires |count| == BUCKETS && forall b :: 0 <= b < BUCKETS ==> count[b] == 0
    ensures Counted(count, [])
  {
  }

  /** The inner counting loop: one chunk, from its last entry to its first. */
  method CountChunk(x: HpList, count: array<nat>, ghost es: seq<Hp>, ghost before: nat)
    requires x.Valid() && count !in x.Repr && before + x.num <= |es| && es[before..before + x.num] == x.hp[..x.num]
    requires Counted(count[..], es[before + x.num..])
    modifies count
    ensures Counted(count[..], es[before..])
  {
    hide Bucket, Counted;
    var i := x.num;
    while i > 0
      invariant 0 <= i <= x.num && x.Valid() && es[before..before + x.num] == x.hp[..x.num]
      invariant Counted(count[..], es[before + i..])
    {
      i := i - 1;
      assert x.hp[i] == x.hp[..x.num][i] == es[before + i];
      CountOne(count[..], es, before + i + 1);
      CountedLength(count[..], es[before + i + 1..]);
      count[x.hp[i].h % 256] := count[x.hp[i].h % 256] + 1;
    }
  }

  /** The first two loops of finish: how many entries each bucket has. */
  method CountBuckets(head: HpList?, count: array<nat>)
    requires ValidList(head) && count.Length == BUCKETS && count !in Footprint(head)
    modifies count
    ensures Counted(count[..], EntriesOf(head))
  {
    hide Bucket, Counted;
    for i := 0 to 256
      invariant forall b :: 0 <= b < i ==> count[b] == 0
    {
      count[i] := 0;
    }
    ghost var es := EntriesOf(head);
    assert es[|es|..] == [];
    NothingCounted(count[..]);
    var x := head;
    while x != null
      invariant ValidList(x) && count !in Footprint(x)
      invariant EntriesOf(x) <= es && Counted(count[..], es[|EntriesOf(x)|..])
      decreases Footprint(x)
    {
      CountChunk(x, count, es, |EntriesOf(x.next)|);
      x := x.next;
    }
    assert es[0..] == es;
  }

  lemma {:induction false} CountedLength(count: seq<nat>, es: seq<Hp>)
    requires Counted(count, es)
    ensures |count| == BUCKETS
  {
  }

  // ---------- The scatter ----------

  lemma {:induction false} BucketSumMonotone(es: seq<Hp>, a: nat, b: nat)
    requires a <= b
    ensures BucketSum(es, a) <= BucketSum(es, b)
  {
    if a < b { BucketSumMonotone(es, a, b - 1); }
  }

  /** The entries of bucket `b` from number `m` on fill the end of the bucket, in order, from `at` on. */
  ghost predicate InPlace(split: seq<Hp>, at: nat, es: seq<Hp>, m: nat, b: nat) {
    && m <= |es| <= |split|
    && at + |Bucket(es[m..], b)| == BucketSum(es, b + 1) <= |es|
    && split[at..BucketSum(es, b + 1)] == Bucket(es[m..], b)
  }

  /** The entries from number `m` on are in place. */
  ghost predicate Placed(split: seq<Hp>, start: seq<nat>, es: seq<Hp>, m: nat) {
    && m <= |es| <= |split| && |start| == BUCKETS
    && forall b :: 0 <= b < BUCKETS ==> InPlace(split, start[b], es, m, b)
  }

  lemma {:induction false} PlaceRoom(split: seq<Hp>, start: seq<nat>, es: seq<Hp>, m: nat)
    requires 0 < m && Placed(split, start, es, m)
    ensures
      var c := es[m - 1].h % 256;
      BucketSum(es, c) < start[c] <= BucketSum(es, c + 1) <= |es|
  {
    hide Bucket;
    var c := es[m - 1].h % 256;
    assert InPlace(split, start[c], es, m, c);
    BucketSuffix(es, m - 1, c);
    BucketCons(es, m, c);
  }

  /** One more entry: it goes just in front of the part of its bucket that is already in place. */
  lemma {:induction false} PlaceOne(split: seq<Hp>, start: seq<nat>, es: seq<Hp>, m: nat)
    requires 0 < m && Placed(split, start, es, m)
    ensures
      var c := es[m - 1].h % 256;
      0 < start[c] <= |split| && Placed(split[start[c] - 1 := es[m - 1]], start[c := start[c] - 1], es, m - 1)
  {
    hide Bucket, BucketSum;
    var e := es[m - 1];
    var c := e.h % 256;
    PlaceRoom(split, start, es, m);
    var at := start[c] - 1;
    var split', start' := split[at := e], start[c := at];
    forall b | 0 <= b < BUCKETS ensures InPlace(split', start'[b], es, m - 1, b) {
      assert InPlace(split, start[b], es, m, b);
      BucketCons(es, m, b);
      var end := BucketSum(es, b + 1);
      if b == c {
        assert split'[at + 1..end] == split[at + 1..end];
        assert split'[at..end] == [e] + split'[at + 1..end];
      } else {
        Apart(es, b, c);
        BucketLow(split, start, es, m, b);
        assert split'[start[b]..end] == split[start[b]..end];
      }
    }
  }

  lemma {:induction false} Apart(es: seq<Hp>, b: nat, c: nat)
    requires b != c
    ensures b < c ==> BucketSum(es, b + 1) <= BucketSum(es, c)
    ensures c < b ==> BucketSum(es, c + 1) <= BucketSum(es, b)
  {
    if b < c { BucketSumMonotone(es, b + 1, c); } else { BucketSumMonotone(es, c + 1, b); }
  }

  lemma {:induction false} BucketLow(split: seq<Hp>, start: seq<nat>, es: seq<Hp>, m: nat, b: nat)
    requires Placed(split, start, es, m) && b < BUCKETS
    ensures BucketSum(es, b) <= start[b] <= BucketSum(es, b + 1)
  {
    assert InPlace(split, start[b], es, m, b);
    BucketSuffix(es, m, b);
  }

  lemma {:induction false} BucketEnd(es: seq<Hp>, b: nat)
    requires b < 256
    ensures BucketSum(es, b + 1) <= |es|
  {
    var n := 256;
    BucketSizesSum(es, n);
    BucketSumMonotone(es, b + 1, n);
  }

  lemma {:induction false} EmptySuffix(es: seq<Hp>, b: nat)
    ensures Bucket(es[|es|..], b) == []
  {
  }

  /** The prefix sums: each bucket's end, before anything is in place. */
  lemma {:induction false} NothingPlaced(split: seq<Hp>, start: seq<nat>, es: seq<Hp>)
    requires |es| <= |split| && |start| == BUCKETS
    requires forall b :: 0 <= b < BUCKETS ==> start[b] == BucketSum(es, b + 1)
    ensures Placed(split, start, es, |es|)
  {
    hide BucketSum, Bucket;
    forall b | 0 <= b < BUCKETS ensures InPlace(split, start[b], es, |es|, b) {
      BucketEnd(es, b);
      EmptySuffix(es, b);
    }
  }

  /** Everything in place: the entries of bucket `b` are at its start, in the order they were added. */
  lemma {:induction false} AllInPlace(split: seq<Hp>, start: seq<nat>, es: seq<Hp>, b: nat)
    requires Placed(split, start, es, 0) && b < BUCKETS
    ensures start[b] == BucketSum(es, b) && start[b] + |Bucket(es, b)| <= |es|
    ensures split[start[b]..start[b] + |Bucket(es, b)|] == Bucket(es, b)
  {
    hide Bucket;
    assert es[0..] == es;
    assert InPlace(split, start[b], es, 0, b);
    assert BucketSum(es, b + 1) == BucketSum(es, b) + |Bucket(es, b)|;
  }

  method PrefixSums(count: array<nat>, start: array<nat>, ghost es: seq<Hp>)
    requires count.Length == start.Length == BUCKETS && count != start && Counted(count[..], es)
    modifies start
    ensures forall b :: 0 <= b < BUCKETS ==> start[b] == BucketSum(es, b + 1)
  {
    hide Bucket;
    var u := 0;
    for i := 0 to 256
      invariant u == BucketSum(es, i) && Counted(count[..], es)
      invariant forall b :: 0 <= b < i ==> start[b] == BucketSum(es, b + 1)
    {
      assert count[i] == count[..][i];
      u := u + count[i];
      start[i] := u;
    }
  }

  method ScatterChunk(x: HpList, split: array<Hp>, start: array<nat>, ghost es: seq<Hp>, ghost before: nat)
    requires x.Valid() && start !in x.Repr && split !in x.Repr
    requires before + x.num <= |es| && es[before..before + x.num] == x.hp[..x.num]
    requires Placed(split[..], start[..], es, before + x.num)
    modifies split, start
    ensures Placed(split[..], start[..], es, before)
  {
    hide Bucket, BucketSum, Placed;
    var i := x.num;
    while i > 0
      invariant 0 <= i <= x.num && x.Valid() && es[before..before + x.num] == x.hp[..x.num]
      invariant Placed(split[..], start[..], es, before + i)
    {
      i := i - 1;
      assert x.hp[i] == x.hp[..x.num][i] == es[before + i];
      PlaceOne(split[..], start[..], es, before + i + 1);
      PlacedLength(split[..], start[..], es, before + i + 1);
      var c := x.hp[i].h % 256;
      start[c] := start[c] - 1;
      split[start[c]] := x.hp[i];
    }
  }

  lemma {:induction false} PlacedLength(split: seq<Hp>, start: seq<nat>, es: seq<Hp>, m: nat)
    requires Placed(split, start, es, m)
    ensures |start| == BUCKETS && m <= |es| <= |split|
  {
  }

  /** The scatter of finish: a stable partition by h & 255, although the list is walked from its end. */
  method Scatter(head: HpList?, count: array<nat>, start: array<nat>, split: array<Hp>)
    requires ValidList(head) && count.Length == start.Length == BUCKETS && count != start
    requires start !in Footprint(head) && split !in Footprint(head)
    requires Counted(count[..], EntriesOf(head)) && |EntriesOf(head)| <= split.Length
    modifies split, start
    ensures Placed(split[..], start[..], EntriesOf(head), 0)
  {
    hide Bucket, BucketSum, Placed;
    ghost var es := EntriesOf(head);
    PrefixSums(count, start, es);
    NothingPlaced(split[..], start[..], es);
    var x := head;
    while x != null
      invariant ValidList(x) && start !in Footprint(x) && split !in Footprint(x)
      invariant EntriesOf(x) <= es && Placed(split[..], start[..], es, |EntriesOf(x)|)
      decreases Footprint(x)
    {
      ScatterChunk(x, split, start, es, |EntriesOf(x.next)|);
      x := x.next;
    }
  }
}
