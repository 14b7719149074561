/** Binary heaps in sequences, with the hole that c/src/prioq/prioq.c moves through them. */
module PrioqHeap {

  /** struct prioq_elt: the smaller `dt`, the earlier. */
  datatype Elt = Elt(id: nat, dt: nat)

  function Parent(k: nat): (i: nat)
    requires k > 0
    ensures i < k
  {
    (k - 1) / 2
  }

  /** The element at `k` is not smaller than the one at its parent. */
  predicate Above(s: seq<Elt>, k: nat)
    requires 0 < k < |s|
  {
    s[Parent(k)].dt <= s[k].dt
  }

  ghost predicate Heap(s: seq<Elt>) {
    forall k :: 0 < k < |s| ==> Above(s, k)
  }

  /** The first element of a heap is a smallest one. */
  lemma {:induction false} RootIsLeast(s: seq<Elt>, k: nat)
    requires Heap(s) && k < |s|
    ensures s[0].dt <= s[k].dt
  {
    if k > 0 {
      RootIsLeast(s, Parent(k));
      assert Above(s, k);
    }
  }

  lemma {:induction false} NoElements()
    ensures Heap([])
  {
  }

  function Swapped(s: seq<Elt>, i: nat, j: nat): (t: seq<Elt>)
    requires i < |s| && j < |s|
    ensures |t| == |s| && multiset(t) == multiset(s) && t[i] == s[j] && t[j] == s[i]
    ensures forall k :: 0 <= k < |s| && k != i && k != j ==> t[k] == s[k]
  {
    s[i := s[j]][j := s[i]]
  }

  // ---------- A hole on its way up ----------

  /** The children of `j` are not below the parent of `j`. */
  ghost predicate Bridged(s: seq<Elt>, j: nat) {
    j > 0 ==> forall k :: 0 < k < |s| && Parent(k) == j ==> s[Parent(j)].dt <= s[k].dt
  }

  /** A heap but for the element at `j`, which may be smaller than its parent. */
  ghost predicate HeapBut(s: seq<Elt>, j: nat) {
    j < |s| && (forall k :: 0 < k < |s| && k != j ==> Above(s, k)) && Bridged(s, j)
  }

  /** A new last element. */
  lemma {:induction false} HoleAtEnd(s: seq<Elt>, e: Elt)
    requires Heap(s)
    ensures HeapBut(s + [e], |s|)
  {
    var t := s + [e];
    forall k | 0 < k < |t| && k != |s| ensures Above(t, k) {
      assert Above(s, k);
    }
  }

  lemma {:induction false} HoleUp(s: seq<Elt>, j: nat)
    requires HeapBut(s, j) && j > 0 && s[j].dt < s[Parent(j)].dt
    ensures HeapBut(Swapped(s, j, Parent(j)), Parent(j))
  {
    var i := Parent(j);
    var t := Swapped(s, j, i);
    forall k | 0 < k < |t| && k != i ensures Above(t, k) {
      if k != j { assert Above(s, k); }
    }
    if i > 0 {
      assert Above(s, i);
      forall k | 0 < k < |t| && Parent(k) == i ensures t[Parent(i)].dt <= t[k].dt {
        if k != j { assert Above(s, k); }
      }
    }
  }

  lemma {:induction false} HoleStops(s: seq<Elt>, j: nat)
    requires HeapBut(s, j) && (j == 0 || s[Parent(j)].dt <= s[j].dt)
    ensures Heap(s)
  {
  }

  // ---------- A hole on its way down ----------

  /** A heap but for the children of `i`, which may be smaller than the element there. */
  ghost predicate HeapAround(s: seq<Elt>, i: nat) {
    i < |s| && (forall k :: 0 < k < |s| && Parent(k) != i ==> Above(s, k)) && Bridged(s, i)
  }

  /** The elements without the first, the last one in its place. */
  function LastForFirst(s: seq<Elt>): (t: seq<Elt>)
    requires s != []
    ensures |t| == |s| - 1 && multiset(t) == multiset(s) - multiset{s[0]}
    ensures t != [] ==> t[0] == s[|s| - 1] && forall k :: 0 < k < |t| ==> t[k] == s[k]
  {
    var n := |s| - 1;
    assert s == s[..n] + [s[n]];
    if n == 0 then [] else s[..n][0 := s[n]]
  }

  /** The last element in the place of the first. */
  lemma {:induction false} HoleAtRoot(s: seq<Elt>)
    requires Heap(s) && |s| > 1
    ensures HeapAround(LastForFirst(s), 0)
  {
    var t := LastForFirst(s);
    forall k | 0 < k < |t| && Parent(k) != 0 ensures Above(t, k) {
      assert Above(s, k);
    }
  }

  /** `j` is the child of `i` with the smaller element. */
  predicate LesserChild(s: seq<Elt>, i: nat, j: nat)
    requires i < |s|
  {
    && j < |s| && (j == 2 * i + 1 || j == 2 * i + 2)
    && s[j].dt <= s[2 * i + 1].dt && (2 * i + 2 < |s| ==> s[j].dt <= s[2 * i + 2].dt)
  }

  lemma {:induction false} HoleDown(s: seq<Elt>, i: nat, j: nat)
    requires HeapAround(s, i) && LesserChild(s, i, j) && s[j].dt < s[i].dt
    ensures HeapAround(Swapped(s, i, j), j)
  {
    var t := Swapped(s, i, j);
    assert Parent(j) == i;
    forall k | 0 < k < |t| && Parent(k) != j ensures Above(t, k) {
      if Parent(k) == i {
        assert k == 2 * i + 1 || k == 2 * i + 2;
      } else {
        assert Above(s, k);
      }
    }
    forall k | 0 < k < |t| && Parent(k) == j ensures t[Parent(j)].dt <= t[k].dt {
      assert Above(s, k);
    }
  }

  /** No child is smaller. */
  lemma {:induction false} HoleRests(s: seq<Elt>, i: nat)
    requires HeapAround(s, i)
    requires forall k :: 2 * i + 1 <= k <= 2 * i + 2 && k < |s| ==> s[i].dt <= s[k].dt
    ensures Heap(s)
  {
    forall k | 0 < k < |s| ensures Above(s, k) {
      if Parent(k) == i {
        assert k == 2 * i + 1 || k == 2 * i + 2;
      }
    }
  }

  /** The second child of `i` may be one past the end; then the element of the hole itself, `x`, is compared. */
  predicate Children(s: seq<Elt>, i: nat, x: Elt) {
    i < |s| && 2 * i + 1 < |s| && x == if 2 * i + 2 < |s| then s[2 * i + 2] else s[i]
  }

  /** The child to which the element of the hole is compared. */
  function Chosen(s: seq<Elt>, i: nat, x: Elt): (j: nat)
    requires Children(s, i, x)
  {
    if s[2 * i + 1].dt <= x.dt then 2 * i + 1 else 2 * i + 2
  }

  lemma {:induction false} ChildFits(s: seq<Elt>, i: nat, x: Elt)
    requires HeapAround(s, i) && Children(s, i, x)
    requires s[i].dt <= if Chosen(s, i, x) == 2 * i + 1 then s[2 * i + 1].dt else x.dt
    ensures Heap(s)
  {
    HoleRests(s, i);
  }

  lemma {:induction false} ChildTaken(s: seq<Elt>, i: nat, x: Elt)
    requires HeapAround(s, i) && Children(s, i, x)
    requires (if Chosen(s, i, x) == 2 * i + 1 then s[2 * i + 1].dt else x.dt) < s[i].dt
    ensures
      var j := Chosen(s, i, x);
      j < |s| && HeapAround(Swapped(s, i, j), j)
  {
    HoleDown(s, i, Chosen(s, i, x));
  }

  /** Nothing below the hole. */
  lemma {:induction false} HoleAtBottom(s: seq<Elt>, i: nat)
    requires HeapAround(s, i) && 2 * i + 1 >= |s|
    ensures Heap(s)
  {
    HoleRests(s, i);
  }

  // ---------- What a queue has to do ----------

  /** `e` is an element with the least `dt`. */
  ghost predicate IsLeast(m: multiset<Elt>, e: Elt) {
    e in m && forall x :: x in m ==> e.dt <= x.dt
  }

  ghost predicate SortedByDt(s: seq<Elt>) {
    forall i, j :: 0 <= i < j < |s| ==> s[i].dt <= s[j].dt
  }

  /** Nothing in `m` comes before an element of `out`. */
  ghost predicate Before(out: seq<Elt>, m: multiset<Elt>) {
    forall i, x :: 0 <= i < |out| && x in m ==> out[i].dt <= x.dt
  }

  lemma {:induction false} NothingTaken(m: multiset<Elt>)
    ensures SortedByDt([]) && Before([], m)
  {
  }

  /** A least element taken from `m` goes behind those already taken. */
  lemma {:induction false} TakeLeast(out: seq<Elt>, m: multiset<Elt>, e: Elt)
    requires SortedByDt(out) && Before(out, m) && IsLeast(m, e)
    ensures SortedByDt(out + [e]) && Before(out + [e], m - multiset{e})
    ensures multiset(out + [e]) + (m - multiset{e}) == multiset(out) + m && |m - multiset{e}| < |m|
  {
    assert multiset{e} <= m;
  }
}
