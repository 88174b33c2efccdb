/** The lazy k-way merge of kmerge.hpp. A reader is the sequence of the records it has
    not handed out yet. */
module KMerge {
  import opened Orders
  import opened Bags
  import opened Heaps

  ghost function Message<M>(e: Entry<M>): multiset<M> {
    multiset{e.msg}
  }

  /** The records of the queue and of the readers together. */
  ghost function Pending<M>(held: seq<Entry<M>>, rest: seq<seq<M>>): multiset<M> {
    Gather(Message, held) + Records(rest)
  }

  ghost predicate HasSource<M>(b: multiset<Entry<M>>, i: nat) {
    exists e :: e in b && e.src == i
  }

  /** At most one record per reader is queued, only readers below `n` have one, and it
      comes out no later than what its reader still holds. */
  ghost predicate Matched<M(!new)>(comp: (M, M) -> bool, b: multiset<Entry<M>>, rest: seq<seq<M>>, n: nat) {
    && n <= |rest|
    && (forall i | 0 <= i < |rest| :: Sorted(comp, rest[i]))
    && (forall e | e in b :: e.src < n && b[e] == 1)
    && (forall e | e in b :: forall x | x in rest[e.src] :: !comp(e.msg, x))
    && (forall e, e' | e in b && e' in b && e.src == e'.src :: e == e')
  }

  /** Moreover, every reader below `n` that is not exhausted has a record in the queue. */
  ghost predicate OneEach<M(!new)>(comp: (M, M) -> bool, b: multiset<Entry<M>>, rest: seq<seq<M>>, n: nat) {
    && Matched(comp, b, rest, n)
    && forall j | 0 <= j < n && rest[j] != [] :: HasSource(b, j)
  }

  /** The same, but for reader `i`, which has none. */
  ghost predicate OneEachBut<M(!new)>(
    comp: (M, M) -> bool, b: multiset<Entry<M>>, rest: seq<seq<M>>, n: nat, i: nat)
  {
    && Matched(comp, b, rest, n)
    && i < n && !HasSource(b, i)
    && forall j | 0 <= j < n && j != i && rest[j] != [] :: HasSource(b, j)
  }

  /** Reader `i`, unrepresented in the queue, contributes its next record. */
  lemma Refill<M(!new)>(comp: (M, M) -> bool, b: multiset<Entry<M>>, rest: seq<seq<M>>, n: nat, i: nat)
    requires OneEachBut(comp, b, rest, n, i) && rest[i] != []
    ensures OneEach(comp, b + multiset{Entry(rest[i][0], i)}, rest[i := rest[i][1..]], n)
  {
    var e0 := Entry(rest[i][0], i);
    var b', rest' := b + multiset{e0}, rest[i := rest[i][1..]];
    assert forall e | e in b' :: e != e0 ==> e in b && e.src != i;
    assert e0 !in b;
    forall x | x in rest'[i] ensures !comp(e0.msg, x) {
      var k :| 0 <= k < |rest[i]| - 1 && rest[i][1..][k] == x;
      assert rest[i][k + 1] == x;
    }
    forall j | 0 <= j < n && rest'[j] != [] ensures HasSource(b', j) {
      if j == i {
        assert e0 in b';
      } else {
        var e :| e in b && e.src == j;
        assert e in b';
      }
    }
  }

  /** Without the entry `e` only the reader of `e` is unrepresented. */
  lemma Remove<M(!new)>(comp: (M, M) -> bool, b: multiset<Entry<M>>, rest: seq<seq<M>>, e: Entry<M>)
    requires OneEach(comp, b, rest, |rest|) && e in b
    ensures OneEachBut(comp, b - multiset{e}, rest, |rest|, e.src)
  {
    var b' := b - multiset{e};
    assert forall e' | e' in b' :: e' in b && e' != e;
    forall j | 0 <= j < |rest| && j != e.src && rest[j] != [] ensures HasSource(b', j) {
      var e' :| e' in b && e'.src == j;
      assert e' in b';
    }
  }

  lemma {:induction false} InMessages<M>(held: seq<Entry<M>>, x: M)
    requires x in Gather(Message, held)
    ensures exists e :: e in held && e.msg == x
  {
    var n := |held| - 1;
    if held[n].msg != x {
      InMessages(held[..n], x);
    } else {
      assert held[n] in held;
    }
  }

  /** The root of the queue comes out no later than any record still to come. */
  lemma RootIsNext<M(!new)>(comp: (M, M) -> bool, held: seq<Entry<M>>, rest: seq<seq<M>>)
    requires StrictWeakOrder(comp) && Heap(comp, held) && held != []
    requires OneEach(comp, multiset(held), rest, |rest|)
    ensures forall x | x in Pending(held, rest) :: !comp(held[0].msg, x)
  {
    forall e | e in held ensures !comp(held[0].msg, e.msg) {
      var k :| 0 <= k < |held| && held[k] == e;
      RootIsFirst(comp, held, k);
    }
    forall x | x in Pending(held, rest) ensures !comp(held[0].msg, x) {
      if x in Gather(Message, held) {
        InMessages(held, x);
      } else {
        InRecords(rest, x);
        var i :| 0 <= i < |rest| && x in rest[i];
        assert HasSource(multiset(held), i);
        var e :| e in multiset(held) && e.src == i;
        assert e in held;
        NegTransitive(comp, held[0].msg, e.msg, x);
      }
    }
  }

  /** With an empty queue every reader is exhausted. */
  lemma NothingPending<M(!new)>(comp: (M, M) -> bool, rest: seq<seq<M>>)
    requires OneEach(comp, multiset{}, rest, |rest|)
    ensures Records(rest) == multiset{}
  {
    forall i | 0 <= i < |rest| ensures rest[i] == [] {
      assert !HasSource<M>(multiset{}, i);
    }
    forall x ensures x !in Records(rest) {
      InRecords(rest, x);
    }
  }

  lemma HeldPermutes<M>(s: seq<Entry<M>>, t: seq<Entry<M>>, e: Entry<M>)
    requires multiset(t) == multiset(s) + multiset{e}
    ensures Gather(Message, t) == Gather(Message, s) + multiset{e.msg}
  {
    GatherSnoc(Message, s, e);
    assert multiset(s + [e]) == multiset(t);
    GatherPermutes(Message, s + [e], t);
  }

  /** The root may be read from `moved` when its message is gone from `c`. */
  lemma HuskedHeap<M(!new)>(comp: (M, M) -> bool, held: seq<Entry<M>>, c: seq<Entry<M>>)
    requires Heap(comp, held) && |c| == |held| > 0 && c[1..] == held[1..]
    ensures HeapBelowRoot(comp, c)
  {
    forall j | 0 < j < |c| && Parent(j) != 0 ensures InOrder(comp, c, j) {
      assert InOrder(comp, held, j);
      assert c[j] == c[1..][j - 1] == held[j];
      assert c[Parent(j)] == c[1..][Parent(j) - 1] == held[Parent(j)];
    }
  }

  /** The next record of reader `i` moves to the queue, which turns from `held` to `more`. */
  lemma Fed<M(!new)>(
    comp: (M, M) -> bool, held: seq<Entry<M>>, more: seq<Entry<M>>, rest: seq<seq<M>>, n: nat, i: nat)
    requires OneEachBut(comp, multiset(held), rest, n, i) && rest[i] != []
    requires multiset(more) == multiset(held) + multiset{Entry(rest[i][0], i)}
    ensures OneEach(comp, multiset(more), rest[i := rest[i][1..]], n)
    ensures Pending(more, rest[i := rest[i][1..]]) == Pending(held, rest)
    ensures more != []
  {
    Refill(comp, multiset(held), rest, n, i);
    RecordsRead(rest, i);
    HeldPermutes(held, more, Entry(rest[i][0], i));
    assert |multiset(more)| > 0;
  }

  /** Taking the root `held[0]` off the queue leaves `left`, without its reader. */
  lemma Popped<M(!new)>(comp: (M, M) -> bool, held: seq<Entry<M>>, left: seq<Entry<M>>, rest: seq<seq<M>>)
    requires held != [] && OneEach(comp, multiset(held), rest, |rest|)
    requires multiset(left) == multiset(held[1..])
    ensures OneEachBut(comp, multiset(left), rest, |rest|, held[0].src)
  {
    assert multiset(left) == multiset(held) - multiset{held[0]} by {
      assert held == [held[0]] + held[1..];
    }
    Remove(comp, multiset(held), rest, held[0]);
  }

  lemma PoppedPending<M>(held: seq<Entry<M>>, left: seq<Entry<M>>, rest: seq<seq<M>>)
    requires held != [] && multiset(left) == multiset(held[1..])
    ensures Pending(held, rest) == Pending(held[1..], rest) + multiset{held[0].msg}
    ensures Pending(left, rest) == Pending(held[1..], rest)
  {
    assert held == [held[0]] + held[1..];
    HeldPermutes(left, held, held[0]);
    HeldPermutes(held[1..], held, held[0]);
    GatherPermutes(Message, left, held[1..]);
  }

  lemma NothingHeld<M>(held: seq<Entry<M>>)
    ensures held != [] ==> held[|held| - 1].msg in Gather(Message, held)
  {
  }

  /** Marks the pairs at which the order of emitted and pending records is used. */
  ghost predicate Pair<M>(x: M, y: M) {
    true
  }

  /** What came out is in order, precedes what is still to come, and together with it is
      the input. */
  ghost predicate Emission<M(!new)>(
    comp: (M, M) -> bool, emitted: seq<M>, pending: multiset<M>, input: multiset<M>)
  {
    && Sorted(comp, emitted)
    && (forall x, y | Pair(x, y) && x in emitted && y in pending :: !comp(x, y))
    && multiset(emitted) + pending == input
  }

  /** A record that comes out no later than any other extends the emitted sequence. */
  lemma EmitNext<M(!new)>(
    comp: (M, M) -> bool, emitted: seq<M>, m: M, before: multiset<M>, after: multiset<M>, input: multiset<M>)
    requires Emission(comp, emitted, before, input) && before == after + multiset{m}
    requires forall y | y in before :: !comp(m, y)
    ensures Emission(comp, emitted + [m], after, input)
    ensures |after| == |before| - 1
  {
    assert m in before;
    forall x, y | Pair(x, y) && x in emitted + [m] && y in after ensures !comp(x, y) {
      assert y in before;
    }
    assert forall i | 0 <= i < |emitted| :: Pair(emitted[i], m);
    assert multiset(emitted + [m]) == multiset(emitted) + multiset{m};
  }

  lemma NothingEmitted<M(!new)>(comp: (M, M) -> bool, emitted: seq<M>, pending: multiset<M>)
    requires emitted == []
    ensures Emission(comp, emitted, pending, pending)
  {
    assert multiset(emitted) + pending == pending;
  }

  class KMergeIterator<M(!new)> {
    const comp: (M, M) -> bool
    var q: seq<Entry<M>>
    var rest: seq<seq<M>>
    var good: bool

    /** The queue as it was before its root record was moved out, if it was. */
    ghost var held: seq<Entry<M>>
    /** Every record the iterator has been advanced past, in order. */
    ghost var emitted: seq<M>
    /** Everything the readers held at the start. */
    ghost const input: multiset<M>

    /** Queue and readers are as `init_queue` and `++` leave them. */
    ghost predicate Fresh()
      reads this`q, this`held, this`rest
    {
      && StrictWeakOrder(comp)
      && q == held && Heap(comp, held)
      && OneEach(comp, multiset(held), rest, |rest|)
    }

    /** The same, but that the root record may have been moved out. */
    ghost predicate Husked()
      reads this`q, this`held, this`rest
    {
      && StrictWeakOrder(comp)
      && Heap(comp, held) && |q| == |held|
      && (held != [] ==> q[0].src == held[0].src && q[1..] == held[1..])
      && OneEach(comp, multiset(held), rest, |rest|)
    }

    ghost predicate Valid()
      reads this
    {
      && Husked()
      && (good <==> held != [])
      && Emission(comp, emitted, Pending(held, rest), input)
    }

    /** The record under the iterator is still in place. */
    ghost predicate InPlace()
      reads this
    {
      q == held
    }

    /** The record under the iterator, wherever it is now. */
    ghost function Top(): M
      requires Valid() && good
      reads this
    {
      held[0].msg
    }

    /** Steps that remain. */
    ghost function Left(): nat
      reads this
    {
      |Pending(held, rest)|
    }

    lemma Ready(pending: multiset<M>)
      requires Fresh() && (good <==> held != [])
      requires pending == Pending(held, rest) && Emission(comp, emitted, pending, input)
      ensures Valid() && InPlace()
    {
    }

    constructor (readers: seq<seq<M>>, comp: (M, M) -> bool)
      requires StrictWeakOrder(comp)
      requires forall i | 0 <= i < |readers| :: Sorted(comp, readers[i])
      ensures Valid() && InPlace()
      ensures this.comp == comp && input == multiset(Concat(readers)) && emitted == []
    {
      this.comp := comp;
      q := [];
      rest := readers;
      good := false;
      held := [];
      input := multiset(Concat(readers));
      new;
      ConcatRecords(readers);
      var isEmpty := InitQueue();
      good := !isEmpty;
      emitted := [];
      NothingEmitted(comp, emitted, input);
      Ready(input);
    }

    /** The sentinel is reached when everything has come out, in order. */
    lemma Exhausted()
      requires Valid() && !good
      ensures Sorted(comp, emitted) && multiset(emitted) == input
    {
      NothingPending(comp, rest);
    }

    /** A record of reader `i`, if it has one, goes to the queue. */
    method Feed(i: nat, ghost n: nat)
      requires StrictWeakOrder(comp) && q == held && Heap(comp, held)
      requires OneEachBut(comp, multiset(held), rest, n, i)
      modifies this`rest, this`held, this`q
      ensures q == held && Heap(comp, held) && |rest| == old(|rest|)
      ensures OneEach(comp, multiset(held), rest, n)
      ensures Pending(held, rest) == old(Pending(held, rest))
    {
      if rest[i] != [] {
        q := Push(comp, q, Entry(rest[i][0], i));
        Fed(comp, held, q, rest, n, i);
        held, rest := q, rest[i := rest[i][1..]];
      }
    }

    /** `init_queue`: one record of every reader that has one. */
    method InitQueue() returns (isEmpty: bool)
      requires StrictWeakOrder(comp) && q == []
      requires forall i | 0 <= i < |rest| :: Sorted(comp, rest[i])
      modifies this`rest, this`held, this`q
      ensures Fresh()
      ensures Pending(held, rest) == Records(old(rest))
      ensures isEmpty <==> held == []
    {
      held := [];
      for i := 0 to |rest|
        invariant |rest| == |old(rest)| && q == held && Heap(comp, held)
        invariant OneEach(comp, multiset(held), rest, i)
        invariant Pending(held, rest) == Records(old(rest))
      {
        Feed(i, i + 1);
      }
      isEmpty := q == [];
    }

    /** `operator*`. */
    function Current(): (m: M)
      requires Valid() && good && InPlace()
      reads this
      ensures m in Pending(held, rest) && m == Top()
    {
      PoppedPending(held, held[1..], rest);
      q[0].msg
    }

    /** `std::move(*it)`: `husk` is what the move leaves in the queue. */
    method MoveOut(husk: M) returns (m: M)
      requires Valid() && good && InPlace()
      modifies this`q
      ensures Valid() && good && m == Top() == old(Top())
      ensures emitted == old(emitted) && Left() == old(Left())
    {
      m := q[0].msg;
      q := q[0 := q[0].(msg := husk)];
      assert q[1..] == held[1..];
    }

    /** The root leaves the queue and the reader it came from feeds the queue again. */
    method Replace()
      requires Husked() && held != []
      modifies this`rest, this`held, this`q
      ensures Fresh()
      ensures Pending(held, rest) == old(Pending(held[1..], rest))
    {
      HuskedHeap(comp, held, q);
      var i := q[0].src;
      q := Pop(comp, q);
      Popped(comp, held, q, rest);
      PoppedPending(held, q, rest);
      held := q;
      Feed(i, |rest|);
    }

    /** Once the queue runs empty, `init_queue` finds nothing to put there. */
    method Refresh()
      requires Fresh()
      modifies this`rest, this`held, this`good, this`q
      ensures Fresh()
      ensures Pending(held, rest) == old(Pending(held, rest))
      ensures good <==> held != []
      ensures held == old(held)
    {
      good := q != [];
      if !good {
        NothingPending(comp, rest);
        var isEmpty := InitQueue();
        NothingHeld(held);
        good := !isEmpty;
      }
    }

    /** `operator++`. */
    method Next()
      requires Valid() && good
      modifies this`rest, this`held, this`good, this`emitted, this`q
      ensures Valid() && InPlace()
      ensures emitted == old(emitted) + [old(Top())]
      ensures Left() == old(Left()) - 1
    {
      ghost var m, later := held[0].msg, Pending(held[1..], rest);
      RootIsNext(comp, held, rest);
      PoppedPending(held, held[1..], rest);
      EmitNext(comp, emitted, m, Pending(held, rest), later, input);
      emitted := emitted + [m];
      Replace();
      Refresh();
      Ready(later);
    }
  }
}
