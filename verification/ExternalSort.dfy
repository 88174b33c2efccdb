/** `ExternalSorter` of kmerge.hpp: sorted part files of bounded size. */
module ExternalSort {
  import opened Orders
  import opened Bags
  import opened Products
  import opened Streams
  import opened KMerge

  /** The comparator that `sort_save` hands to `std::sort`. */
  function Reversed<T>(comp: (T, T) -> bool): (T, T) -> bool {
    (a, b) => comp(b, a)
  }

  lemma ReversedOrder<T(!new)>(comp: (T, T) -> bool)
    requires StrictWeakOrder(comp)
    ensures StrictWeakOrder(Reversed(comp))
  {
    var rev := Reversed(comp);
    forall a, b, c | Chain(a, b, c) && !rev(a, b) && !rev(b, c) ensures !rev(a, c) {
      NegTransitive(comp, c, b, a);
    }
  }

  lemma TakeOne<T>(taken: seq<T>, ahead: seq<T>, m: T, later: seq<T>)
    requires ahead == [m] + later
    ensures taken + [m] + later == taken + ahead
  {
  }

  lemma StoreOne<T>(
    stored: multiset<T>, more: multiset<T>, base: multiset<T>, taken: multiset<T>, now: multiset<T>, m: T)
    requires stored == base + taken && more == stored + multiset{m} && now == taken + multiset{m}
    ensures more == base + now
  {
  }

  // Which records go to which part ------------------------------------------------------

  /** Part `i` has the records of `s` from place `i * size` on, `size` of them. */
  ghost predicate FullPart<T>(part: seq<T>, i: nat, size: nat, s: seq<T>) {
    && |part| == size && MulNat(i, size) + size <= |s|
    && multiset(part) == multiset(s[MulNat(i, size)..MulNat(i, size) + size])
  }

  /** `s` has been cut into `parts` of `size` records each, and `buf` is what is left of it;
      with `0` for `size` nothing is cut off. */
  ghost predicate CutSoFar<T>(parts: seq<seq<T>>, buf: seq<T>, size: nat, s: seq<T>) {
    if size == 0 then parts == [] && buf == s
    else
      && MulNat(|parts|, size) + |buf| == |s| && buf == s[MulNat(|parts|, size)..] && |buf| < size
      && forall i | 0 <= i < |parts| :: FullPart(parts[i], i, size, s)
  }

  /** After `n` parts, `last` has become one more unless it is empty. */
  ghost predicate EndsWith<T>(parts: seq<seq<T>>, n: nat, last: seq<T>) {
    if last == [] then |parts| == n
    else |parts| == n + 1 && |parts[n]| == |last| && multiset(parts[n]) == multiset(last)
  }

  /** All of `s` in parts of `size` records, the last of which may have fewer. */
  ghost predicate CutUp<T(!new)>(parts: seq<seq<T>>, size: nat, s: seq<T>) {
    exists n, last | 0 <= n <= |parts| && EndsWith(parts, n, last) :: CutSoFar(parts[..n], last, size, s)
  }

  lemma CutNone<T>(size: nat)
    ensures CutSoFar<T>([], [], size, [])
  {
    MulZero(size);
  }

  /** One more record stays in the buffer or completes a part. */
  lemma CutOne<T>(
    parts: seq<seq<T>>, buf: seq<T>, size: nat, s: seq<T>, x: T, after: seq<seq<T>>, rest: seq<T>)
    requires CutSoFar(parts, buf, size, s)
    requires if |buf| + 1 != size then after == parts && rest == buf + [x] else
               && rest == [] && |after| == |parts| + 1 && after[..|parts|] == parts
               && |after[|parts|]| == size && multiset(after[|parts|]) == multiset(buf + [x])
    ensures CutSoFar(after, rest, size, s + [x])
  {
    if size > 0 {
      var t, n := s + [x], |parts|;
      forall i | 0 <= i < n ensures FullPart(after[i], i, size, t) {
        assert FullPart(parts[i], i, size, s);
        assert t[MulNat(i, size)..MulNat(i, size) + size] == s[MulNat(i, size)..MulNat(i, size) + size];
      }
      assert t[MulNat(n, size)..] == buf + [x];
      if |buf| + 1 == size {
        MulSuccessor(n, size);
        assert t[MulNat(n, size)..MulNat(n, size) + size] == buf + [x];
        assert FullPart(after[n], n, size, t);
      }
    }
  }

  /** The sizes of the parts, and how many there are: the quotient rounded up. */
  lemma CutSizes<T(!new)>(parts: seq<seq<T>>, size: nat, s: seq<T>)
    requires CutUp(parts, size, s)
    ensures size == 0 ==> |parts| == if s == [] then 0 else 1
    ensures size > 0 ==> |s| <= |parts| * size < |s| + size
    ensures size > 0 ==> forall i | 0 <= i < |parts| - 1 :: |parts[i]| == size
  {
    var n: nat, last :| n <= |parts| && EndsWith(parts, n, last) && CutSoFar(parts[..n], last, size, s);
    if size > 0 {
      MulSuccessor(n, size);
      forall i | 0 <= i < |parts| - 1 ensures |parts[i]| == size {
        assert FullPart(parts[..n][i], i, size, s);
      }
    }
  }

  class ExternalSorter<M(!new)> {
    const comp: (M, M) -> bool
    const maxElems: nat
    /** The part files; their number is `nChunks`. */
    var parts: seq<seq<M>>

    constructor (comp: (M, M) -> bool, maxElems: nat)
      requires StrictWeakOrder(comp)
      ensures Valid() && parts == []
      ensures this.comp == comp && this.maxElems == maxElems
    {
      this.comp := comp;
      this.maxElems := maxElems;
      parts := [];
    }

    ghost predicate Valid()
      reads this
    {
      && StrictWeakOrder(comp)
      && forall p | p in parts ::
           && p != [] && (maxElems > 0 ==> |p| <= maxElems)
           && Sorted(comp, p)
    }

    /** Records in the part files and in the buffer. */
    ghost function Stored(buf: seq<M>): multiset<M>
      reads this
    {
      Records(parts) + multiset(buf)
    }

    method SortSave(buf: seq<M>)
      requires Valid() && buf != [] && (maxElems > 0 ==> |buf| <= maxElems)
      modifies this`parts
      ensures Valid()
      ensures Records(parts) == Records(old(parts)) + multiset(buf)
      ensures |parts| == |old(parts)| + 1 && parts[..|old(parts)|] == old(parts)
      ensures multiset(parts[|old(parts)|]) == multiset(buf) && |parts[|old(parts)|]| == |buf|
    {
      ReversedOrder(comp);
      var part := Sort(Reversed(comp), buf);
      GatherSnoc(Content, parts, part);
      parts := parts + [part];
    }

    /** After the records `taken`: what was written since `before`, and what `buf` has of them. */
    ghost predicate Progress(before: seq<seq<M>>, buf: seq<M>, taken: seq<M>)
      reads this
    {
      && Valid() && (maxElems > 0 ==> |buf| < maxElems)
      && before <= parts && CutSoFar(parts[|before|..], buf, maxElems, taken)
      && Stored(buf) == Records(before) + multiset(taken)
    }

    /** The loop body of `sort_unstable`: the record is buffered, and the buffer becomes a part when
        it has `maxElems` records, not before. */
    method Put(buf: seq<M>, msg: M, ghost before: seq<seq<M>>, ghost taken: seq<M>) returns (rest: seq<M>)
      requires Progress(before, buf, taken)
      modifies this`parts
      ensures Progress(before, rest, taken + [msg])
      ensures |buf| + 1 != maxElems ==> parts == old(parts) && rest == buf + [msg]
      ensures |buf| + 1 == maxElems ==>
                && rest == [] && |parts| == |old(parts)| + 1 && parts[..|old(parts)|] == old(parts)
                && |parts[|old(parts)|]| == maxElems && multiset(parts[|old(parts)|]) == multiset(buf + [msg])
    {
      rest := buf + [msg];
      if |rest| == maxElems {
        SortSave(rest);
        rest := [];
      }
      CutMore(before, old(parts), parts, buf, rest, maxElems, taken, msg);
      StoreOne(old(Stored(buf)), Stored(rest), Records(before), multiset(taken), multiset(taken + [msg]), msg);
    }

    /** `sort_unstable` reading a file; `0` for `maxElems` means no bound. */
    method SortUnstable(input: IFStreamer<M>) returns (paths: seq<seq<M>>)
      requires Valid()
      modifies this`parts, input`rest
      ensures Valid() && paths == parts && input.rest == []
      ensures forall i | 0 <= i < |paths| :: Sorted(comp, paths[i])
      ensures multiset(Concat(paths)) == Records(old(parts)) + multiset(old(input.rest))
      ensures old(parts) <= paths && CutUp(paths[|old(parts)|..], maxElems, old(input.rest))
    {
      var buf: seq<M> := [];
      ghost var taken: seq<M>, ahead := [], input.rest;
      CutNone<M>(maxElems);
      var msg := input.Read();
      while msg.Some?
        invariant Progress(old(parts), buf, taken) && taken + ahead == old(input.rest)
        invariant if msg.Some? then ahead == [msg.value] + input.rest else ahead == input.rest == []
        decreases |ahead|
      {
        buf := Put(buf, msg.value, old(parts), taken);
        TakeOne(taken, ahead, msg.value, input.rest);
        taken, ahead := taken + [msg.value], input.rest;
        msg := input.Read();
      }
      assert taken + [] == taken;
      paths := Close(buf, old(parts), taken);
    }

    /** `sort_unstable` reading a transformed file. */
    method SortTransformed<I>(input: Transformer<I, M>) returns (paths: seq<seq<M>>)
      requires Valid()
      modifies this`parts, input`rest, input`q, input`keep
      ensures Valid() && paths == parts
      ensures forall i | 0 <= i < |paths| :: Sorted(comp, paths[i])
      ensures multiset(Concat(paths)) == Records(old(parts)) + multiset(old(input.Ahead()))
      ensures old(parts) <= paths && CutUp(paths[|old(parts)|..], maxElems, old(input.Ahead()))
    {
      var buf: seq<M> := [];
      ghost var taken: seq<M>, ahead := [], input.Ahead();
      CutNone<M>(maxElems);
      var msg := input.Read();
      while msg.Some?
        invariant Progress(old(parts), buf, taken) && taken + ahead == old(input.Ahead())
        invariant ahead == if msg.Some? then [msg.value] + input.Ahead() else []
        decreases |ahead|
      {
        buf := Put(buf, msg.value, old(parts), taken);
        TakeOne(taken, ahead, msg.value, input.Ahead());
        taken, ahead := taken + [msg.value], input.Ahead();
        msg := input.Read();
      }
      assert taken + [] == taken;
      paths := Close(buf, old(parts), taken);
    }

    /** What is left in the buffer becomes the last part. */
    method Close(buf: seq<M>, ghost before: seq<seq<M>>, ghost all: seq<M>) returns (paths: seq<seq<M>>)
      requires Progress(before, buf, all)
      modifies this`parts
      ensures Valid() && paths == parts
      ensures forall i | 0 <= i < |paths| :: Sorted(comp, paths[i])
      ensures multiset(Concat(paths)) == Records(before) + multiset(all)
      ensures before <= paths && CutUp(paths[|before|..], maxElems, all)
    {
      if buf != [] {
        SortSave(buf);
      }
      paths := parts;
      CutLast(before, old(parts), paths, buf, maxElems, all);
      ConcatRecords(paths);
    }
  }

  lemma CutMore<T>(
    before: seq<seq<T>>, parts: seq<seq<T>>, after: seq<seq<T>>, buf: seq<T>, rest: seq<T>, size: nat, s: seq<T>, x: T)
    requires before <= parts && CutSoFar(parts[|before|..], buf, size, s)
    requires if |buf| + 1 != size then after == parts && rest == buf + [x] else
               && rest == [] && |after| == |parts| + 1 && after[..|parts|] == parts
               && |after[|parts|]| == size && multiset(after[|parts|]) == multiset(buf + [x])
    ensures before <= after && CutSoFar(after[|before|..], rest, size, s + [x])
  {
    var b := |before|;
    assert |buf| + 1 == size ==> after[b..][..|parts[b..]|] == parts[b..] && after[b..][|parts[b..]|] == after[|parts|];
    CutOne(parts[b..], buf, size, s, x, after[b..], rest);
  }

  lemma CutLast<T(!new)>(
    before: seq<seq<T>>, parts: seq<seq<T>>, after: seq<seq<T>>, buf: seq<T>, size: nat, s: seq<T>)
    requires before <= parts && CutSoFar(parts[|before|..], buf, size, s)
    requires if buf == [] then after == parts else
               && |after| == |parts| + 1 && after[..|parts|] == parts
               && multiset(after[|parts|]) == multiset(buf) && |after[|parts|]| == |buf|
    ensures before <= after && CutUp(after[|before|..], size, s)
  {
    var added, n := after[|before|..], |parts| - |before|;
    assert added[..n] == parts[|before|..];
    assert EndsWith(added, n, buf);
    assert CutSoFar(added[..n], buf, size, s);
  }

  /** `sort_unstable` on a file followed by a loop over the merger. */
  method SortFile<M(!new)>(file: seq<M>, comp: (M, M) -> bool, maxElems: nat) returns (out: seq<M>)
    requires StrictWeakOrder(comp)
    ensures Sorted(comp, out) && multiset(out) == multiset(file)
  {
    var input := new IFStreamer(file);
    var sorter := new ExternalSorter(comp, maxElems);
    var paths := sorter.SortUnstable(input);
    var it := new KMergeIterator(paths, comp);
    out := [];
    while it.good
      invariant it.Valid() && it.InPlace() && out == it.emitted
      decreases it.Left()
    {
      out := out + [it.Current()];
      it.Next();
    }
    it.Exhausted();
  }

  // Sorting in parts and sorting at once ------------------------------------------------

  ghost function NoLater<T>(comp: (T, T) -> bool, m: T): T -> real {
    (x: T) => if comp(x, m) then 0.0 else 1.0
  }

  lemma {:induction false} CountNoLater<T(!new)>(comp: (T, T) -> bool, s: seq<T>, m: T, i: nat)
    requires StrictWeakOrder(comp) && Sorted(comp, s)
    ensures 0.0 <= Sum(NoLater(comp, m), s) <= |s| as real
    ensures i < |s| && !comp(s[i], m) ==> Sum(NoLater(comp, m), s) >= (i + 1) as real
    ensures i < |s| && comp(s[i], m) ==> Sum(NoLater(comp, m), s) <= i as real
  {
    if s != [] {
      var n: nat := |s| - 1;
      CountNoLater(comp, s[..n], m, if i < n then i else if n > 0 then n - 1 else 0);
      if i < n && comp(s[i], m) && !comp(s[n], m) {
        NegTransitive(comp, s[i], s[n], m);
      }
      if n > 0 && i == n && !comp(s[n], m) {
        NegTransitive(comp, s[n - 1], s[n], m);
      }
    }
  }

  /** The same records in order have equivalent records at every place: how they were cut into
      parts shows in the order of ties only. */
  lemma SortedPlaces<T(!new)>(comp: (T, T) -> bool, s: seq<T>, t: seq<T>, i: nat)
    requires StrictWeakOrder(comp) && Sorted(comp, s) && Sorted(comp, t)
    requires multiset(s) == multiset(t) && i < |s|
    ensures |s| == |t| && !comp(s[i], t[i]) && !comp(t[i], s[i])
  {
    assert |s| == |multiset(s)| == |multiset(t)| == |t|;
    SumPermutes(NoLater(comp, s[i]), s, t);
    CountNoLater(comp, s, s[i], i);
    CountNoLater(comp, t, s[i], i);
    SumPermutes(NoLater(comp, t[i]), s, t);
    CountNoLater(comp, s, t[i], i);
    CountNoLater(comp, t, t[i], i);
  }

  /** For records with different keys there is only one sorted order, ascending by key. */
  lemma SortedKeys(s: seq<Count>, t: seq<Count>, i: nat)
    requires Sorted(CountMore, s) && Sorted(CountMore, t) && multiset(s) == multiset(t) && i < |s|
    ensures |s| == |t| && s[i].key == t[i].key
  {
    ComparatorsAreOrders();
    SortedPlaces(CountMore, s, t, i);
    GramMoreLinear(s[i].key, t[i].key);
  }
}
