/** `groupby_save` and `merge_files` of kmerge.hpp. */
module GroupBy {
  import opened Orders
  import opened Bags
  import opened KMerge
  import opened Runs
  import opened Tables

  function CountKey(c: Count): Gram {
    c.key
  }

  // The loop of groupby_save ----------------------------------------------------

  function RunWeight(run: seq<Count>): u32 {
    if run == [] then 0 else U32(run[|run| - 1].weight + RunWeight(run[..|run| - 1]))
  }

  function TotalOf(k: Gram, run: seq<Count>): seq<Count> {
    [Count(k, RunWeight(run))]
  }

  /** The file that `groupby_save` writes for the merged sequence `s`. */
  ghost function Totals(s: seq<Count>): seq<Count> {
    Grouped(CountKey, TotalOf, RunKeys(CountKey, s), s)
  }

  lemma RunWeightSnoc(run: seq<Count>, x: Count)
    ensures RunWeight(run + [x]) == U32(x.weight + RunWeight(run))
  {
    assert (run + [x])[..|run|] == run;
  }

  /** The totals of all runs of `s` but the latest. */
  ghost function Closed(s: seq<Count>): seq<Count>
    requires s != []
  {
    var keys := RunKeys(CountKey, s);
    Grouped(CountKey, TotalOf, keys[..|keys| - 1], s)
  }

  /** The total of the latest run of `s`. */
  ghost function Latest(s: seq<Count>): Count
    requires s != []
  {
    var k := s[|s| - 1].key;
    Count(k, RunWeight(Select(CountKey, k, s)))
  }

  lemma TotalsEnd(s: seq<Count>)
    requires s != []
    ensures Totals(s) == Closed(s) + [Latest(s)]
  {
    LatestGrouped(CountKey, TotalOf, s);
  }

  lemma FirstRecord(x: Count)
    ensures Closed([x]) == [] && Latest([x]) == x
  {
    StartGrouped(CountKey, TotalOf, x);
    SelectSnoc(CountKey, x.key, [], x);
    RunWeightSnoc([], x);
    assert [] + [x] == [x];
  }

  lemma SameKey(s: seq<Count>, x: Count)
    requires KeySorted(CountKey, s + [x]) && s != [] && Latest(s).key == x.key
    ensures Closed(s + [x]) == Closed(s)
    ensures Latest(s + [x]) == Count(x.key, U32(x.weight + Latest(s).weight))
  {
    var run := Select(CountKey, x.key, s);
    assert Closed(s + [x]) == Closed(s) && Select(CountKey, x.key, s + [x]) == run + [x] by {
      StepGrouped(CountKey, TotalOf, s, x);
    }
    RunWeightSnoc(run, x);
  }

  lemma NewKey(s: seq<Count>, x: Count)
    requires KeySorted(CountKey, s + [x]) && s != [] && Latest(s).key != x.key
    ensures Closed(s + [x]) == Closed(s) + [Latest(s)]
    ensures Latest(s + [x]) == x
  {
    StepGrouped(CountKey, TotalOf, s, x);
    LatestGrouped(CountKey, TotalOf, s);
    RunWeightSnoc([], x);
    assert [] + [x] == [x];
  }

  /** What one more record does to the totals. */
  lemma NextRecord(s: seq<Count>, x: Count)
    requires KeySorted(CountKey, s + [x])
    ensures s == [] ==> Closed(s + [x]) == [] && Latest(s + [x]) == x
    ensures s != [] && x.key == Latest(s).key ==>
              Closed(s + [x]) == Closed(s) &&
              Latest(s + [x]) == Latest(s).(weight := U32(x.weight + Latest(s).weight))
    ensures s != [] && x.key != Latest(s).key ==>
              Closed(s + [x]) == Closed(s) + [Latest(s)] && Latest(s + [x]) == x
  {
    if s == [] {
      assert s + [x] == [x];
      FirstRecord(x);
    } else if Latest(s).key == x.key {
      SameKey(s, x);
    } else {
      NewKey(s, x);
    }
  }

  lemma CountsInOrder(it: KMergeIterator<Count>)
    requires it.Valid() && it.comp == CountMore
    ensures KeySorted(CountKey, it.emitted)
  {
    var s := it.emitted;
    forall i, j | 0 <= i < j < |s| ensures !GramMore(s[i].key, s[j].key) {
      assert !it.comp(s[i], s[j]);
    }
  }

  /** The loop body of `groupby_save`, which starts with no `prev`. What a move leaves
      behind is the previous content of `prev`. */
  method TakeRecord(it: KMergeIterator<Count>, isStart: bool, out: seq<Count>, prev: Count)
    returns (more: seq<Count>, last: Count)
    requires it.Valid() && it.InPlace() && it.good && it.comp == CountMore
    requires isStart <==> it.emitted == []
    requires isStart ==> out == []
    requires !isStart ==> out == Closed(it.emitted) && prev == Latest(it.emitted)
    modifies it
    ensures it.Valid() && it.InPlace() && it.Left() == old(it.Left()) - 1
    ensures it.emitted != [] && more == Closed(it.emitted) && last == Latest(it.emitted)
  {
    ghost var s, x := it.emitted, it.Top();
    more, last := out, prev;
    if isStart {
      last := it.MoveOut(last);
    } else if it.Current().key == last.key {
      last := last.(weight := U32(it.Current().weight + last.weight));
    } else {
      more := more + [last];
      last := it.MoveOut(last);
    }
    it.Next();
    CountsInOrder(it);
    assert it.emitted == s + [x];
    NextRecord(s, x);
  }

  /** `groupby_save`. */
  method GroupBySave(it: KMergeIterator<Count>) returns (out: seq<Count>)
    requires it.Valid() && it.InPlace() && it.comp == CountMore && it.emitted == []
    modifies it
    ensures it.Valid() && !it.good
    ensures out == Totals(it.emitted)
  {
    var prev, isStart := Count([], 0), true;
    out := [];
    while it.good
      invariant it.Valid() && it.InPlace()
      invariant isStart <==> it.emitted == []
      invariant isStart ==> out == []
      invariant !isStart ==> out == Closed(it.emitted) && prev == Latest(it.emitted)
      decreases it.Left()
    {
      out, prev := TakeRecord(it, isStart, out, prev);
      isStart := false;
    }
    if !isStart {
      TotalsEnd(it.emitted);
      out := out + [prev];
    }
  }

  // What the file means -----------------------------------------------------------

  lemma {:induction false} GroupedTotals(keys: seq<Gram>, s: seq<Count>)
    ensures var t := Grouped(CountKey, TotalOf, keys, s);
            && |t| == |keys|
            && forall i | 0 <= i < |keys| :: t[i] == Count(keys[i], RunWeight(Select(CountKey, keys[i], s)))
  {
    if keys != [] {
      GroupedTotals(keys[..|keys| - 1], s);
    }
  }

  lemma AddedWeight(run: seq<Count>, x: Count, before: nat, total: nat)
    requires RunWeight(run) == U32(before) && total == before + x.weight
    ensures RunWeight(run + [x]) == U32(total)
  {
    RunWeightSnoc(run, x);
    U32Add(x.weight, before);
  }

  lemma {:induction false} SelectedWeight(k: Gram, s: seq<Count>)
    ensures RunWeight(Select(CountKey, k, s)) == U32(Gather(Copies, s)[k])
  {
    if s != [] {
      var n := |s| - 1;
      var run, before: nat := Select(CountKey, k, s[..n]), Gather(Copies, s[..n])[k];
      SelectedWeight(k, s[..n]);
      assert Gather(Copies, s)[k] == before + if s[n].key == k then s[n].weight else 0;
      if s[n].key == k {
        AddedWeight(run, s[n], before, Gather(Copies, s)[k]);
      } else {
        assert run + [] == run;
      }
    }
  }

  lemma TotalKeys(s: seq<Count>, k: Gram)
    requires KeySorted(CountKey, s)
    ensures HasKey(Totals(s), k) <==> HasKey(s, k)
  {
    var keys, t := RunKeys(CountKey, s), Totals(s);
    GroupedTotals(keys, s);
    RunKeysMembers(CountKey, s, k);
    HasKeyIff(s, k);
    assert (exists x :: x in s && x.key == k) <==> exists x :: x in s && CountKey(x) == k;
    if k in keys {
      var i :| 0 <= i < |keys| && keys[i] == k;
      assert t[i].key == k;
    }
    assert HasKey(t, k) ==> k in keys;
  }

  /** `groupby_save` over a sorted stream writes each key once, ascending, with its total. */
  lemma TotalsAreTotals(s: seq<Count>)
    requires KeySorted(CountKey, s)
    ensures IsTotals(Totals(s), s)
  {
    var keys, t := RunKeys(CountKey, s), Totals(s);
    RunKeysAscend(CountKey, s);
    GroupedTotals(keys, s);
    assert forall k :: HasKey(t, k) <==> HasKey(s, k) by {
      forall k ensures HasKey(t, k) <==> HasKey(s, k) {
        TotalKeys(s, k);
      }
    }
    forall c | c in t ensures c.weight == U32(Gather(Copies, s)[c.key]) {
      SelectedWeight(c.key, s);
    }
  }

  /** `merge_files`. */
  method MergeFiles(paths: seq<seq<Count>>) returns (out: seq<Count>)
    requires forall p | p in paths :: Sorted(CountMore, p)
    ensures IsTotals(out, Concat(paths))
  {
    ComparatorsAreOrders();
    var it := new KMergeIterator(paths, CountMore);
    out := GroupBySave(it);
    it.Exhausted();
    CountsInOrder(it);
    TotalsAreTotals(it.emitted);
    TotalsPermute(out, it.emitted, Concat(paths));
  }
}
