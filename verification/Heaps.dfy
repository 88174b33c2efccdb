/** `std::priority_queue` as the binary heap it is, over pairs of a record and the
    index of the reader it came from. */
module Heaps {
  import opened Orders

  /** The pair `_t` of `KMergeIterator`. */
  datatype Entry<M> = Entry(msg: M, src: nat)

  function Parent(i: nat): nat
    requires i > 0
  {
    (i - 1) / 2
  }

  /** `QCmp`: a parent never comes out after its child. */
  ghost predicate InOrder<M>(comp: (M, M) -> bool, c: seq<Entry<M>>, i: nat)
    requires 0 < i < |c|
  {
    !comp(c[Parent(i)].msg, c[i].msg)
  }

  ghost predicate Heap<M>(comp: (M, M) -> bool, c: seq<Entry<M>>) {
    forall i | 0 < i < |c| :: InOrder(comp, c, i)
  }

  /** What is left of a heap after its root record has been moved out. */
  ghost predicate HeapBelowRoot<M>(comp: (M, M) -> bool, c: seq<Entry<M>>) {
    forall i | 0 < i < |c| && Parent(i) != 0 :: InOrder(comp, c, i)
  }

  /** Grandchildren of a hole at `i` respect the parent of the hole. */
  ghost predicate AroundHole<M>(comp: (M, M) -> bool, c: seq<Entry<M>>, i: nat) {
    0 < i < |c| ==> forall j | 0 < j < |c| && Parent(j) == i :: !comp(c[Parent(i)].msg, c[j].msg)
  }

  /** A heap but for `i`, which may have to come out before its parent. */
  ghost predicate TooLow<M>(comp: (M, M) -> bool, c: seq<Entry<M>>, i: nat) {
    && i < |c|
    && (forall j | 0 < j < |c| && j != i :: InOrder(comp, c, j))
    && AroundHole(comp, c, i)
  }

  /** A heap but for `i`, which may have to come out after its children. */
  ghost predicate TooHigh<M>(comp: (M, M) -> bool, c: seq<Entry<M>>, i: nat) {
    && i < |c|
    && (forall j | 0 < j < |c| && Parent(j) != i :: InOrder(comp, c, j))
    && AroundHole(comp, c, i)
  }

  function Swap<T>(c: seq<T>, i: nat, j: nat): (r: seq<T>)
    requires i < |c| && j < |c|
    ensures multiset(r) == multiset(c)
  {
    c[i := c[j]][j := c[i]]
  }

  lemma SwapUp<M(!new)>(comp: (M, M) -> bool, c: seq<Entry<M>>, i: nat)
    requires StrictWeakOrder(comp) && 0 < i && TooLow(comp, c, i) && !InOrder(comp, c, i)
    ensures TooLow(comp, Swap(c, Parent(i), i), Parent(i))
  {
    var p := Parent(i);
    var d := Swap(c, p, i);
    forall j | 0 < j < |d| && j != p ensures InOrder(comp, d, j) {
      if j != i {
        assert InOrder(comp, c, j);
        assert Parent(j) == p ==> Chain(c[i].msg, c[p].msg, c[j].msg);
      }
    }
    if p > 0 {
      assert InOrder(comp, c, p);
      forall j | 0 < j < |d| && Parent(j) == p ensures !comp(d[Parent(p)].msg, d[j].msg) {
        if j != i {
          assert InOrder(comp, c, j);
          NegTransitive(comp, c[Parent(p)].msg, c[p].msg, c[j].msg);
        }
      }
    }
  }

  /** The last entry of `c` takes the place of the root. */
  function Refilled<T>(c: seq<T>): (r: seq<T>)
    requires |c| > 1
    ensures multiset(r) == multiset(c[1..])
  {
    var last := c[|c| - 1];
    assert c[1..] == c[1..|c| - 1] + [last];
    [last] + c[1..|c| - 1]
  }

  lemma RefilledTooHigh<M(!new)>(comp: (M, M) -> bool, c: seq<Entry<M>>)
    requires |c| > 1 && HeapBelowRoot(comp, c)
    ensures TooHigh(comp, Refilled(c), 0)
  {
    var d := Refilled(c);
    forall j | 0 < j < |d| && Parent(j) != 0 ensures InOrder(comp, d, j) {
      assert InOrder(comp, c, j);
    }
  }

  lemma SwapDown<M(!new)>(comp: (M, M) -> bool, c: seq<Entry<M>>, i: nat, child: nat)
    requires StrictWeakOrder(comp) && TooHigh(comp, c, i)
    requires 0 < child < |c| && Parent(child) == i && !InOrder(comp, c, child)
    requires forall j | 0 < j < |c| && Parent(j) == i :: !comp(c[child].msg, c[j].msg)
    ensures TooHigh(comp, Swap(c, i, child), child)
  {
    var d := Swap(c, i, child);
    forall j | 0 < j < |d| && Parent(j) != child ensures InOrder(comp, d, j) {
      if Parent(j) != i {
        assert InOrder(comp, c, j);
      }
    }
    forall j | 0 < j < |d| && Parent(j) == child ensures !comp(d[Parent(child)].msg, d[j].msg) {
      assert InOrder(comp, c, j);
    }
  }

  /** The child of `i` that comes out first; an index past the end if there is none. */
  function FirstChild<M(!new)>(comp: (M, M) -> bool, c: seq<Entry<M>>, i: nat): (child: nat)
    requires StrictWeakOrder(comp)
    ensures child > 0 && Parent(child) == i
    ensures child >= |c| ==> forall j | 0 < j < |c| :: Parent(j) != i
    ensures child < |c| ==> forall j | 0 < j < |c| && Parent(j) == i :: !comp(c[child].msg, c[j].msg)
  {
    var child := 2 * i + 1;
    if child + 1 < |c| && comp(c[child].msg, c[child + 1].msg) then child + 1 else child
  }

  lemma Settled<M(!new)>(comp: (M, M) -> bool, c: seq<Entry<M>>, i: nat)
    requires StrictWeakOrder(comp) && TooHigh(comp, c, i)
    requires var child := FirstChild(comp, c, i); child < |c| ==> InOrder(comp, c, child)
    ensures Heap(comp, c)
  {
    forall j | 0 < j < |c| ensures InOrder(comp, c, j) {
      if Parent(j) == i {
        assert !comp(c[FirstChild(comp, c, i)].msg, c[j].msg);
      }
    }
  }

  /** The root comes out no later than any other entry. */
  lemma {:induction false} RootIsFirst<M(!new)>(comp: (M, M) -> bool, c: seq<Entry<M>>, i: nat)
    requires StrictWeakOrder(comp) && Heap(comp, c) && i < |c|
    ensures !comp(c[0].msg, c[i].msg)
    decreases i
  {
    if i > 0 {
      RootIsFirst(comp, c, Parent(i));
      assert InOrder(comp, c, i);
      NegTransitive(comp, c[0].msg, c[Parent(i)].msg, c[i].msg);
    }
  }

  /** `emplace`. */
  method Push<M(!new)>(comp: (M, M) -> bool, q: seq<Entry<M>>, e: Entry<M>) returns (c: seq<Entry<M>>)
    requires StrictWeakOrder(comp) && Heap(comp, q)
    ensures Heap(comp, c) && multiset(c) == multiset(q) + multiset{e}
  {
    c := q + [e];
    var i: nat := |q|;
    assert forall j | 0 < j < i :: InOrder(comp, q, j) ==> InOrder(comp, c, j);
    while i > 0 && comp(c[Parent(i)].msg, c[i].msg)
      invariant TooLow(comp, c, i)
      invariant multiset(c) == multiset(q) + multiset{e}
    {
      SwapUp(comp, c, i);
      c := Swap(c, Parent(i), i);
      i := Parent(i);
    }
  }

  /** `pop`: the record at the root is never compared, so it may have been moved out. */
  method Pop<M(!new)>(comp: (M, M) -> bool, q: seq<Entry<M>>) returns (c: seq<Entry<M>>)
    requires StrictWeakOrder(comp) && q != [] && HeapBelowRoot(comp, q)
    ensures Heap(comp, c) && multiset(c) == multiset(q[1..])
  {
    if |q| == 1 {
      return [];
    }
    RefilledTooHigh(comp, q);
    c := Refilled(q);
    var i: nat := 0;
    while true
      invariant TooHigh(comp, c, i)
      invariant multiset(c) == multiset(q[1..])
      decreases |c| - i
    {
      var child := FirstChild(comp, c, i);
      if child >= |c| || !comp(c[i].msg, c[child].msg) {
        Settled(comp, c, i);
        return;
      }
      SwapDown(comp, c, i, child);
      c := Swap(c, i, child);
      i := child;
    }
  }
}
