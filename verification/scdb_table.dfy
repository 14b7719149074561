/** The open-addressing hash tables of an scdb file, as values: how finish fills one
    (c/lib/scdb/scdb_make.c) and what a reader that probes it meets (c/lib/scdb/scdb.c). */
module ScdbTable {

  /** A hash and the position of the record it belongs to. */
  datatype Hp = Hp(h: nat, p: nat)

  /** What a slot holds before anything is stored in it; position 0 marks it as free. */
  const BLANK := Hp(0, 0)

  type Table = seq<Hp>

  /** The slot at which probing for hash `h` starts. */
  function Home(h: nat, len: nat): (s: nat)
    requires 0 < len
    ensures s < len
  {
    (h / 256) % len
  }

  /** The slot reached `k` steps after `home`, going around at the end. */
  function Slot(home: nat, k: nat, len: nat): (s: nat)
    requires home < len && k < len
    ensures s < len
  {
    if home + k < len then home + k else home + k - len
  }

  predicate Free(t: Table, s: nat)
    requires s < |t|
  {
    t[s].p == 0
  }

  /** The number of steps from `home` to the first free slot at or after step `k`; |t| when there is none. */
  function FindFree(t: Table, home: nat, k: nat): (f: nat)
    requires home < |t| && k <= |t|
    ensures k <= f <= |t|
    ensures f < |t| ==> Free(t, Slot(home, f, |t|))
    ensures forall j :: k <= j < f ==> !Free(t, Slot(home, j, |t|))
    decreases |t| - k
  {
    if k == |t| || Free(t, Slot(home, k, |t|)) then k else FindFree(t, home, k + 1)
  }

  /** Linear probing: the entry goes to the first free slot from its home on. */
  function Insert(t: Table, e: Hp): (r: Table)
    requires 0 < |t|
    ensures |r| == |t|
  {
    var home := Home(e.h, |t|);
    var k := FindFree(t, home, 0);
    if k < |t| then t[Slot(home, k, |t|) := e] else t
  }

  /** A table of `len` slots after the entries of `b` have been stored one by one. */
  function Fill(len: nat, b: seq<Hp>): (t: Table)
    requires 0 < len
    ensures |t| == len
  {
    if b == [] then seq(len, _ => BLANK) else Insert(Fill(len, b[..|b| - 1]), b[|b| - 1])
  }

  /** The positions that a probe for hash `h` finds from step `k` on: it stops at a free slot or after |t| steps. */
  function Hits(t: Table, h: nat, k: nat): (ps: seq<nat>)
    requires k <= |t|
    decreases |t| - k
  {
    if k == |t| then []
    else
      var s := Slot(Home(h, |t|), k, |t|);
      if Free(t, s) then []
      else (if t[s].h == h then [t[s].p] else []) + Hits(t, h, k + 1)
  }

  /** The positions stored with hash `h`, oldest first. */
  function PositionsWith(es: seq<Hp>, h: nat): (ps: seq<nat>) {
    if es == [] then []
    else
      var e := es[|es| - 1];
      PositionsWith(es[..|es| - 1], h) + if e.h == h then [e.p] else []
  }

  /** Nothing is free between the home of a stored entry and the slot it is in. */
  ghost predicate Reachable(t: Table) {
    forall home, d, k ::
      0 <= k < d < |t| && 0 <= home < |t| && !Free(t, Slot(home, d, |t|)) && Home(t[Slot(home, d, |t|)].h, |t|) == home
      ==> !Free(t, Slot(home, k, |t|))
  }

  ghost predicate AllPlaced(b: seq<Hp>) {
    forall i :: 0 <= i < |b| ==> b[i].p != 0
  }

  // ---------- There is always room ----------

  lemma {:induction false} FreeSlotIsFound(t: Table, home: nat, s: nat)
    requires home < |t| && s < |t| && Free(t, s)
    ensures FindFree(t, home, 0) < |t|
  {
    var k := if home <= s then s - home else s + |t| - home;
    assert Slot(home, k, |t|) == s;
  }

  /** The contents of a table: its entries, and blanks everywhere else. */
  ghost predicate Holds(t: Table, b: seq<Hp>)
    requires |b| <= |t|
  {
    && multiset(t) == multiset(b) + multiset{}[BLANK := |t| - |b|]
    && forall s :: 0 <= s < |t| && Free(t, s) ==> t[s] == BLANK
  }

  lemma {:induction false} SomethingFree(t: Table, b: seq<Hp>, home: nat)
    requires |b| < |t| && home < |t| && Holds(t, b)
    ensures FindFree(t, home, 0) < |t|
  {
    assert multiset(t)[BLANK] > 0;
    assert BLANK in multiset(t);
    var s :| 0 <= s < |t| && t[s] == BLANK;
    FreeSlotIsFound(t, home, s);
  }

  lemma {:induction false} InsertHolds(t: Table, b: seq<Hp>, e: Hp)
    requires |b| < |t| && Holds(t, b) && e.p != 0
    ensures Holds(Insert(t, e), b + [e])
  {
    var home := Home(e.h, |t|);
    SomethingFree(t, b, home);
    var w := Slot(home, FindFree(t, home, 0), |t|);
    assert Insert(t, e) == t[w := e] && t[w] == BLANK;
    assert multiset(t[w := e]) == multiset(t) - multiset{BLANK} + multiset{e};
  }

  /** A table with room stores every entry exactly once and keeps the rest of its slots blank. */
  lemma {:induction false} FillHolds(len: nat, b: seq<Hp>)
    requires |b| <= len && 0 < len && AllPlaced(b)
    ensures Holds(Fill(len, b), b)
  {
    if b == [] {
      BlankCount(len);
    } else {
      var b0, e := b[..|b| - 1], b[|b| - 1];
      FillHolds(len, b0);
      InsertHolds(Fill(len, b0), b0, e);
      assert b == b0 + [e];
    }
  }

  lemma {:induction false} BlankCount(len: nat)
    ensures multiset(seq(len, _ => BLANK)) == multiset{}[BLANK := len]
  {
    var s := seq(len, _ => BLANK);
    if len == 0 {
      assert s == [];
    } else {
      BlankCount(len - 1);
      assert s == seq(len - 1, _ => BLANK) + [BLANK];
    }
  }

  lemma {:induction false} FillHasRoom(len: nat, b: seq<Hp>, home: nat)
    requires |b| < len && AllPlaced(b) && home < len
    ensures FindFree(Fill(len, b), home, 0) < len
  {
    FillHolds(len, b);
    SomethingFree(Fill(len, b), b, home);
  }

  // ---------- Storing an entry makes it, and nothing else, newly visible ----------

  lemma {:induction false} SlotInjective(home: nat, j: nat, k: nat, len: nat)
    requires home < len && j < len && k < len && Slot(home, j, len) == Slot(home, k, len)
    ensures j == k
  {
  }

  lemma {:induction false} InsertKeepsReachable(t: Table, e: Hp)
    requires 0 < |t| && Reachable(t) && e.p != 0
    requires FindFree(t, Home(e.h, |t|), 0) < |t|
    ensures Reachable(Insert(t, e))
  {
    var n := |t|;
    var he := Home(e.h, n);
    var ke := FindFree(t, he, 0);
    var w := Slot(he, ke, n);
    var t' := Insert(t, e);
    forall home, d, k |
      0 <= k < d < n && 0 <= home < n && !Free(t', Slot(home, d, n)) && Home(t'[Slot(home, d, n)].h, n) == home
      ensures !Free(t', Slot(home, k, n))
    {
      if Slot(home, d, n) == w {
        SlotInjective(home, d, ke, n);
        assert !Free(t, Slot(he, k, n));
      } else {
        assert !Free(t, Slot(home, d, n));
        assert !Free(t, Slot(home, k, n));
      }
    }
  }

  /** Nothing with hash `h` lies past step `k`. */
  lemma {:induction false} NoMoreHits(t: Table, h: nat, k: nat)
    requires 0 < |t| && k <= |t|
    requires forall j :: k <= j < |t| ==>
      Free(t, Slot(Home(h, |t|), j, |t|)) || t[Slot(Home(h, |t|), j, |t|)].h != h
    ensures Hits(t, h, k) == []
    decreases |t| - k
  {
    if k < |t| { NoMoreHits(t, h, k + 1); }
  }

  /** Two tables that agree on the occupied slots from step `k` to step `f` show the same there. */
  lemma {:induction false} HitsExtend(t: Table, t': Table, h: nat, k: nat, f: nat, tail: seq<nat>)
    requires 0 < |t| == |t'| && k <= f <= |t|
    requires forall j :: k <= j < f ==>
      !Free(t, Slot(Home(h, |t|), j, |t|)) && t'[Slot(Home(h, |t|), j, |t|)] == t[Slot(Home(h, |t|), j, |t|)]
    requires Hits(t', h, f) == Hits(t, h, f) + tail
    ensures Hits(t', h, k) == Hits(t, h, k) + tail
    decreases f - k
  {
    hide Home, Hits, Slot;
    if k < f {
      HitsExtend(t, t', h, k + 1, f, tail);
      HitsStep(t, h, k);
      HitsStep(t', h, k);
      var s := Slot(Home(h, |t|), k, |t|);
      var here := if t[s].h == h then [t[s].p] else [];
      assert here + (Hits(t, h, k + 1) + tail) == here + Hits(t, h, k + 1) + tail;
    }
  }

  lemma {:induction false} HitsStep(t: Table, h: nat, k: nat)
    requires k < |t| && !Free(t, Slot(Home(h, |t|), k, |t|))
    ensures
      var s := Slot(Home(h, |t|), k, |t|);
      Hits(t, h, k) == (if t[s].h == h then [t[s].p] else []) + Hits(t, h, k + 1)
  {
  }

  /** Where a probe for `h` used to stop it now finds the new entry, if that went there, and nothing further on. */
  lemma {:induction false} HitsAtOldEnd(t: Table, e: Hp, h: nat, f: nat)
    requires 0 < |t| && Reachable(t) && e.p != 0
    requires FindFree(t, Home(e.h, |t|), 0) < |t|
    requires f == FindFree(t, Home(h, |t|), 0) < |t|
    ensures Hits(Insert(t, e), h, f) == if e.h == h then [e.p] else []
  {
    var n, t', home := |t|, Insert(t, e), Home(h, |t|);
    var w := Slot(Home(e.h, n), FindFree(t, Home(e.h, n), 0), n);
    if w == Slot(home, f, n) {
      forall j | f < j < n
        ensures Free(t', Slot(home, j, n)) || t'[Slot(home, j, n)].h != h
      {
        if Slot(home, j, n) == w { SlotInjective(home, j, f, n); }
      }
      NoMoreHits(t', h, f + 1);
    } else {
      assert Free(t', Slot(home, f, n));
    }
  }

  lemma {:induction false} InsertHits(t: Table, e: Hp, h: nat)
    requires 0 < |t| && Reachable(t) && e.p != 0
    requires FindFree(t, Home(e.h, |t|), 0) < |t|
    requires FindFree(t, Home(h, |t|), 0) < |t|
    ensures Hits(Insert(t, e), h, 0) == Hits(t, h, 0) + if e.h == h then [e.p] else []
  {
    var f, tail := FindFree(t, Home(h, |t|), 0), if e.h == h then [e.p] else [];
    HitsAtOldEnd(t, e, h, f);
    assert Hits(t, h, f) + tail == tail;
    HitsExtend(t, Insert(t, e), h, 0, f, tail);
  }

  /** What a probe finds is what was stored with that hash, in the order it was stored. */
  lemma {:induction false} FillHits(len: nat, b: seq<Hp>, h: nat)
    requires |b| < len && AllPlaced(b)
    ensures Reachable(Fill(len, b))
    ensures Hits(Fill(len, b), h, 0) == PositionsWith(b, h)
  {
    if b != [] {
      var b0, e := b[..|b| - 1], b[|b| - 1];
      FillHits(len, b0, h);
      FillHasRoom(len, b0, Home(h, len));
      FillHasRoom(len, b0, Home(e.h, len));
      InsertKeepsReachable(Fill(len, b0), e);
      InsertHits(Fill(len, b0), e, h);
    }
  }
}
