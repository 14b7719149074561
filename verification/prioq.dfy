/** c/src/prioq/prioq.c: a growing priority queue. */
module Prioq {
  import opened PrioqHeap

  const ELT_SIZE: nat := 16
  const ALIGNMENT: nat := 16

  /** The number of elements for which _alloc gets room, asked for `n` of them: the bytes, an `unsigned int`, are
      rounded up past the next multiple of ALIGNMENT. */
  function Allocated(n: nat): nat {
    var bytes := n * ELT_SIZE % 0x1_0000_0000;
    (ALIGNMENT + bytes - bytes % ALIGNMENT) % 0x1_0000_0000 / ELT_SIZE
  }

  /** The elements have room exactly as long as the number of bytes does not wrap around. */
  lemma {:induction false} AllocatedEnough(n: nat)
    ensures n <= Allocated(n) <==> n + 1 < 0x1000_0000
    ensures n + 1 < 0x1000_0000 ==> Allocated(n) == n + 1
  {
    var m, wraps := n % 0x1000_0000, n / 0x1000_0000;
    assert n * ELT_SIZE == 16 * m + 0x1_0000_0000 * wraps;
    assert n * ELT_SIZE % 0x1_0000_0000 == 16 * m;
    assert 16 * m % 16 == 0;
  }

  /** The size after growth to `n` elements. */
  function Grown(n: nat): nat {
    100 + n + n / 8
  }

  class PrioQ {
    var p: array?<Elt>
    var len: nat
    var size: nat

    ghost predicate Valid()
      reads this, p
    {
      if p == null then len == 0
      else len <= size <= p.Length && Heap(p[..len])
    }

    /** The stored elements. */
    ghost function Stored(): multiset<Elt>
      requires p != null ==> len <= p.Length
      reads this, p
    {
      if p == null then multiset{} else multiset(p[..len])
    }

    /** There is room for `n` more elements, or _alloc can make it. */
    ghost predicate CanGrow(n: nat)
      reads this
    {
      if p == null then n + 1 < 0x1000_0000 else len + n < size || Grown(len + n) + 1 < 0x1000_0000
    }

    /** spq_new */
    constructor ()
      ensures Valid() && p == null && Stored() == multiset{}
    {
      p, len, size := null, 0, 0;
    }

    /** prioq_readplus: room for `n` more elements. */
    method ReadPlus(n: nat) returns (r: int)
      requires Valid() && CanGrow(n)
      modifies this
      ensures r == 0 && Valid() && p != null && len == old(len) && len + n <= size
      ensures if old(p) != null && len + n < old(size) then p == old(p) && size == old(size)
              else fresh(p) && size == if old(p) == null then n else 100 + (len + n) + (len + n) / 8
      ensures p[..len] == if old(p) == null then [] else old(p[..len])
    {
      if p != null {
        ghost var before := p[..len];
        var i := size;
        var n' := n + len;
        if n' >= i {
          size := Grown(n');
          AllocatedEnough(size);
          var q := new Elt[Allocated(size)];
          forall k | 0 <= k < i && k < p.Length { q[k] := p[k]; }
          p := q;
        }
        assert p[..len] == before;
        return 0;
      }
      len := 0;
      size := n;
      AllocatedEnough(n);
      p := new Elt[Allocated(n)];
      return 0;
    }

    /** prioq_insert, and spq_add */
    method Add(pe: Elt) returns (r: int)
      requires Valid() && CanGrow(1)
      modifies this, p
      ensures r == 0 && Valid() && (p == old(p) || fresh(p)) && len == old(len) + 1
      ensures Stored() == old(Stored()) + multiset{pe}
    {
      ghost var before := if p == null then [] else p[..len];
      var _ := ReadPlus(1);
      len := len + 1;
      SiftUp(before, pe);
      return 0;
    }

    /** The loop of prioq_insert: the hole moves up from the end until `pe` fits in. */
    method SiftUp(ghost before: seq<Elt>, pe: Elt)
      requires p != null && 0 < len <= size <= p.Length && before == p[..len - 1] && Heap(before)
      modifies p
      ensures Heap(p[..len]) && multiset(p[..len]) == multiset(before) + multiset{pe}
    {
      hide HeapBut, Heap, Swapped;
      var j := len - 1;
      ghost var s := before + [pe];
      HoleAtEnd(before, pe);
      while j > 0
        invariant 0 <= j < len && |s| == len && HeapBut(s, j) && s[j] == pe
        invariant multiset(s) == multiset(before) + multiset{pe}
        invariant forall k :: 0 <= k < len && k != j ==> p[k] == s[k]
        decreases j
      {
        var i := (j - 1) / 2;
        if p[i].dt <= pe.dt { break; }
        HoleUp(s, j);
        s := Swapped(s, j, i);
        p[j] := p[i];
        j := i;
      }
      HoleStops(s, j);
      p[j] := pe;
      assert p[..len] == s;
    }

    /** prioq_min */
    method Min(pe: Elt) returns (r: int, pe': Elt)
      requires Valid()
      ensures r == if len == 0 then 1 else 0
      ensures r != 0 ==> pe' == pe
      ensures r == 0 ==> IsLeast(Stored(), pe') && pe' == p[0]
    {
      pe' := pe;
      if p == null { return 1, pe; }
      if len == 0 { return 1, pe; }
      pe' := p[0];
      forall x | x in Stored() ensures pe'.dt <= x.dt {
        var k :| 0 <= k < len && p[..len][k] == x;
        RootIsLeast(p[..len], k);
      }
      assert p[..len][0] in multiset(p[..len]);
      return 0, pe';
    }

    /** The loop of prioq_del_min: the hole moves down from the root until the last element fits in. `s` are the
        elements with the last one in the place of the first. */
    method SiftDown(n: nat, ghost s: seq<Elt>)
      requires p != null && n + 1 <= p.Length && |s| == n
      requires n > 0 ==> HeapAround(s, 0) && s[0] == p[n] && forall k :: 0 < k < n ==> p[k] == s[k]
      modifies p
      ensures Heap(p[..n]) && multiset(p[..n]) == multiset(s)
    {
      hide HeapAround, Heap, Swapped, Parent, Above;
      NoElements();
      ghost var t, last := s, p[n];
      var i := 0;
      while true
        invariant 0 <= i <= n && |t| == n && p[n] == last && multiset(t) == multiset(s)
        invariant if n == 0 then i == 0 else i < n && HeapAround(t, i) && t[i] == last
        invariant forall k :: 0 <= k < n && k != i ==> p[k] == t[k]
        decreases n - i
      {
        var j := i + i + 2;
        if j > n {
          if n > 0 { HoleAtBottom(t, i); }
          break;
        }
        ghost var x := p[j];
        if p[j - 1].dt <= p[j].dt { j := j - 1; }
        if p[n].dt <= p[j].dt {
          ChildFits(t, i, x);
          break;
        }
        ChildTaken(t, i, x);
        t := Swapped(t, i, j);
        p[i] := p[j];
        i := j;
      }
      p[i] := p[n];
      assert p[..n] == t;
    }

    method RemoveRoot(n: nat)
      requires p != null && n + 1 <= p.Length && Heap(p[..n + 1])
      modifies p
      ensures Heap(p[..n]) && multiset(p[..n]) == old(multiset(p[..n + 1])) - multiset{old(p[0])}
    {
      hide Heap, LastForFirst, HeapAround;
      ghost var all := p[..n + 1];
      if n > 0 { HoleAtRoot(all); }
      assert all[n] == p[n] && all[0] == p[0];
      SiftDown(n, LastForFirst(all));
    }

    /** prioq_del_min */
    method DelMin()
      requires Valid()
      modifies this, p
      ensures Valid() && p == old(p)
      ensures old(len) == 0 ==> Stored() == old(Stored())
      ensures old(len) > 0 ==> len == old(len) - 1 && Stored() == old(Stored()) - multiset{old(p[0])}
    {
      if p == null { return; }
      if len == 0 { return; }
      hide Heap;
      assert p[..len - 1 + 1] == p[..len];
      RemoveRoot(len - 1);
      len := len - 1;
    }

    /** spq_get: takes a least element out; the result is 1 if there is none. */
    method Get(pe: Elt) returns (r: int, pe': Elt)
      requires Valid()
      modifies this, p
      ensures Valid() && p == old(p)
      ensures if old(Stored()) == multiset{} then r == 1 && pe' == pe && Stored() == multiset{}
              else r == 0 && IsLeast(old(Stored()), pe') && Stored() == old(Stored()) - multiset{pe'}
    {
      hide Heap, IsLeast;
      assert len > 0 ==> p[0] in p[..len] && p[0] in Stored();
      r, pe' := Min(pe);
      if r != 0 { return 1, pe'; }
      DelMin();
      return 0, pe';
    }

    /** spq_get until it fails: out comes what was stored, in the order of `dt`, and nothing is left. */
    method Drain() returns (out: seq<Elt>)
      requires Valid()
      modifies this, p
      ensures Valid() && Stored() == multiset{}
      ensures multiset(out) == old(Stored()) && SortedByDt(out)
    {
      hide Heap, IsLeast, SortedByDt, Before;
      out := [];
      NothingTaken(Stored());
      var pe := Elt(0, 0);
      while true
        invariant Valid() && p == old(p)
        invariant multiset(out) + Stored() == old(Stored()) && SortedByDt(out) && Before(out, Stored())
        decreases |Stored()|
      {
        ghost var m := Stored();
        var r;
        r, pe := Get(pe);
        if r != 0 { break; }
        TakeLeast(out, m, pe);
        out := out + [pe];
      }
    }
  }

  lemma {:induction false} StoredNone(es: seq<Elt>)
    ensures multiset(es[..0]) == multiset{}
  {
  }

  /** The next element, for which there is room. */
  lemma {:induction false} OneMoreStored(es: seq<Elt>, i: nat)
    requires i < |es|
    ensures multiset(es[..i + 1]) == multiset(es[..i]) + multiset{es[i]}
    ensures Grown(i + 1) <= Grown(|es|)
  {
    assert es[..i + 1] == es[..i] + [es[i]];
  }

  /** The test program: elements are added to a new queue, and come out sorted by `dt`. */
  method AddAndGet(es: seq<Elt>) returns (out: seq<Elt>)
    requires Grown(|es|) + 1 < 0x1000_0000
    ensures multiset(out) == multiset(es) && SortedByDt(out)
  {
    hide SortedByDt, Heap, PrioQ.Stored, Grown;
    StoredNone(es);
    var pq := new PrioQ();
    for i := 0 to |es|
      invariant pq.Valid() && pq.Stored() == multiset(es[..i]) && pq.len == i && (pq.p != null ==> fresh(pq.p))
    {
      OneMoreStored(es, i);
      var _ := pq.Add(es[i]);
    }
    assert es[..|es|] == es;
    out := pq.Drain();
  }
}
