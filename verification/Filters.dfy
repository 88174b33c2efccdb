/** `merge_unifreq`, `filter_bilems`, `filter_trilems` and `load_filtered_bigrams` of
    src/colloc.cpp. */
module Filters {
  import opened Orders
  import opened Bags
  import opened Wrappers
  import opened Streams
  import opened KMerge
  import opened ExternalSort
  import opened Tables
  import opened Counting

  /** `LemId` and `LemFreq`. */
  datatype LemId = LemId(str: seq<nat>, id: nat)
  datatype LemFreq = LemFreq(str: seq<nat>, id: nat, weight: u32)

  /** `merge_unifreq`: `None` for the size mismatch that the source reports by an exception. */
  method MergeUniFreq(uni: map<nat, u32>, lemids: seq<LemId>) returns (file: Option<seq<LemFreq>>)
    requires |uni| == |lemids| ==> forall m | m in lemids :: m.id in uni
    ensures file.None? <==> |uni| != |lemids|
    ensures file.Some? ==>
              && |file.value| == |lemids|
              && forall i | 0 <= i < |lemids| ::
                   file.value[i] == LemFreq(lemids[i].str, lemids[i].id, uni[lemids[i].id])
  {
    if |uni| != |lemids| {
      return None;
    }
    var out := [];
    for i := 0 to |lemids|
      invariant |out| == i
      invariant forall k | 0 <= k < i :: out[k] == LemFreq(lemids[k].str, lemids[k].id, uni[lemids[k].id])
    {
      out := out + [LemFreq(lemids[i].str, lemids[i].id, uni[lemids[i].id])];
    }
    file := Some(out);
  }

  /** Reading bifreq.bin or trifreq.bin back into a map. */
  method LoadCounts(file: seq<Count>) returns (m: CountMap)
    requires DistinctKeys(file)
    ensures forall k :: k in m <==> HasKey(file, k)
    ensures forall c | c in file :: c.key in m && m[c.key] == c.weight
  {
    m := map[];
    for i := 0 to |file|
      invariant forall k :: k in m <==> exists j :: 0 <= j < i && file[j].key == k
      invariant forall j | 0 <= j < i :: file[j].key in m && m[file[j].key] == file[j].weight
    {
      if file[i].key !in m {
        m := m[file[i].key := file[i].weight];
      }
    }
  }

  /** The test of both filters; the look-up is unchecked in the source. */
  predicate Passes(freqs: CountMap, th1: u32, th2: real, grp: Group)
    requires grp.lids in freqs
  {
    freqs[grp.lids] > th1 && grp.weight > th2
  }

  ghost predicate AllKnown(freqs: CountMap, groups: seq<Group>) {
    forall grp | grp in groups :: grp.lids in freqs
  }

  /** The groups that pass, in their order. */
  ghost function Passing(freqs: CountMap, th1: u32, th2: real, groups: seq<Group>): seq<Group> {
    if groups == [] then []
    else
      var grp := groups[|groups| - 1];
      Passing(freqs, th1, th2, groups[..|groups| - 1])
      + if grp.lids in freqs && Passes(freqs, th1, th2, grp) then [grp] else []
  }

  ghost function PassingOne(freqs: CountMap, th1: u32, th2: real): Group -> multiset<Group> {
    (grp: Group) => if grp.lids in freqs && Passes(freqs, th1, th2, grp) then multiset{grp} else multiset{}
  }

  lemma {:induction false} PassingBag(freqs: CountMap, th1: u32, th2: real, groups: seq<Group>)
    ensures multiset(Passing(freqs, th1, th2, groups)) == Gather(PassingOne(freqs, th1, th2), groups)
  {
    if groups != [] {
      PassingBag(freqs, th1, th2, groups[..|groups| - 1]);
    }
  }

  /** Filtering does not depend on the order of the groups. */
  lemma PassingPermutes(freqs: CountMap, th1: u32, th2: real, s: seq<Group>, t: seq<Group>)
    requires multiset(s) == multiset(t)
    ensures multiset(Passing(freqs, th1, th2, s)) == multiset(Passing(freqs, th1, th2, t))
  {
    PassingBag(freqs, th1, th2, s);
    PassingBag(freqs, th1, th2, t);
    GatherPermutes(PassingOne(freqs, th1, th2), s, t);
  }

  /** Passing groups of a sorted sequence are sorted. */
  lemma {:induction false} PassingSorted(freqs: CountMap, th1: u32, th2: real, s: seq<Group>)
    requires Sorted(GroupLess, s)
    ensures Sorted(GroupLess, Passing(freqs, th1, th2, s))
    ensures forall grp | grp in Passing(freqs, th1, th2, s) :: grp in s
  {
    if s != [] {
      var n := |s| - 1;
      PassingSorted(freqs, th1, th2, s[..n]);
      var front := Passing(freqs, th1, th2, s[..n]);
      forall i | 0 <= i < |front| ensures !GroupLess(front[i], s[n]) {
        assert front[i] in s[..n];
        var j :| 0 <= j < n && s[..n][j] == front[i];
        assert s[j] == front[i];
      }
    }
  }

  lemma PassingSnoc(freqs: CountMap, th1: u32, th2: real, s: seq<Group>, grp: Group)
    ensures Passing(freqs, th1, th2, s + [grp]) ==
            Passing(freqs, th1, th2, s) + if grp.lids in freqs && Passes(freqs, th1, th2, grp) then [grp] else []
  {
    assert (s + [grp])[..|s|] == s;
  }

  lemma {:induction false} PassingCopies(freqs: CountMap, th1: u32, th2: real, groups: seq<Group>, grp: Group)
    ensures multiset(Passing(freqs, th1, th2, groups))[grp] ==
            if grp.lids in freqs && Passes(freqs, th1, th2, grp) then multiset(groups)[grp] else 0
  {
    if groups != [] {
      var n := |groups| - 1;
      assert groups == groups[..n] + [groups[n]];
      PassingCopies(freqs, th1, th2, groups[..n], grp);
    }
  }

  /** What both filters write: the passing groups, best score first. */
  ghost predicate IsFiltered(out: seq<Group>, freqs: CountMap, th1: u32, th2: real, groups: seq<Group>) {
    Sorted(GroupLess, out) && multiset(out) == multiset(Passing(freqs, th1, th2, groups))
  }

  /** In other words: scores do not rise, and a group is there as often as it was if it is in more
      than `th1` documents and its score is above `th2`, and else not at all. */
  lemma FilteredMeans(out: seq<Group>, freqs: CountMap, th1: u32, th2: real, groups: seq<Group>)
    requires AllKnown(freqs, groups) && IsFiltered(out, freqs, th1, th2, groups)
    ensures forall i, j | 0 <= i < j < |out| :: out[i].weight >= out[j].weight
    ensures forall grp :: multiset(out)[grp] ==
                          if grp in groups && freqs[grp.lids] > th1 && grp.weight > th2 then multiset(groups)[grp] else 0
  {
    forall i, j | 0 <= i < j < |out| ensures out[i].weight >= out[j].weight {
      assert !GroupLess(out[i], out[j]);
    }
    forall grp ensures multiset(out)[grp] ==
                       if grp in groups && freqs[grp.lids] > th1 && grp.weight > th2 then multiset(groups)[grp] else 0 {
      PassingCopies(freqs, th1, th2, groups, grp);
      assert grp in groups <==> grp in multiset(groups);
    }
  }

  /** `filter_bilems`: sort externally, then filter. The source has 20'000'000 for `maxElems`. */
  method FilterBilems(groups: seq<Group>, freqs: CountMap, th1: u32, th2: real, maxElems: nat)
    returns (out: seq<Group>)
    requires AllKnown(freqs, groups)
    ensures IsFiltered(out, freqs, th1, th2, groups)
    ensures forall i, j | 0 <= i < j < |out| :: out[i].weight >= out[j].weight
    ensures forall grp :: multiset(out)[grp] ==
                          if grp in groups && freqs[grp.lids] > th1 && grp.weight > th2 then multiset(groups)[grp] else 0
  {
    ComparatorsAreOrders();
    var input := new IFStreamer(groups);
    var sorter := new ExternalSorter(GroupLess, maxElems);
    var paths := sorter.SortUnstable(input);
    var it := new KMergeIterator(paths, GroupLess);
    out := [];
    while it.good
      invariant it.Valid() && it.InPlace()
      invariant out == Passing(freqs, th1, th2, it.emitted)
      decreases it.Left()
    {
      var grp := it.Current();
      PassingSnoc(freqs, th1, th2, it.emitted, grp);
      InInput(it);
      assert grp in groups;
      if Passes(freqs, th1, th2, grp) {
        out := out + [grp];
      }
      it.Next();
    }
    it.Exhausted();
    PassingSorted(freqs, th1, th2, it.emitted);
    PassingPermutes(freqs, th1, th2, it.emitted, groups);
    FilteredMeans(out, freqs, th1, th2, groups);
  }

  lemma InInput(it: KMergeIterator<Group>)
    requires it.Valid() && it.good && it.InPlace()
    ensures it.Current() in it.input
  {
  }

  /** `filter_trilems`: filter, then sort in memory. */
  method FilterTrilems(groups: seq<Group>, freqs: CountMap, th1: u32, th2: real) returns (out: seq<Group>)
    requires AllKnown(freqs, groups)
    ensures IsFiltered(out, freqs, th1, th2, groups)
    ensures forall i, j | 0 <= i < j < |out| :: out[i].weight >= out[j].weight
    ensures forall grp :: multiset(out)[grp] ==
                          if grp in groups && freqs[grp.lids] > th1 && grp.weight > th2 then multiset(groups)[grp] else 0
  {
    var v := [];
    for i := 0 to |groups|
      invariant v == Passing(freqs, th1, th2, groups[..i])
    {
      assert groups[..i + 1] == groups[..i] + [groups[i]];
      PassingSnoc(freqs, th1, th2, groups[..i], groups[i]);
      assert groups[i] in groups;
      if Passes(freqs, th1, th2, groups[i]) {
        v := v + [groups[i]];
      }
    }
    assert groups[..|groups|] == groups;
    ComparatorsAreOrders();
    ReversedOrder(GroupLess);
    out := Sort(Reversed(GroupLess), v);
    FilteredMeans(out, freqs, th1, th2, groups);
  }

  /** The two ways of filtering agree but for the order of groups with equal scores. */
  lemma FiltersAgree(
    out: seq<Group>, out': seq<Group>, freqs: CountMap, th1: u32, th2: real, groups: seq<Group>, i: nat)
    requires IsFiltered(out, freqs, th1, th2, groups) && IsFiltered(out', freqs, th1, th2, groups)
    ensures |out| == |out'| && (i < |out| ==> out[i].weight == out'[i].weight)
  {
    assert |out| == |multiset(out)| == |multiset(out')| == |out'|;
    if i < |out| {
      ComparatorsAreOrders();
      SortedPlaces(GroupLess, out, out', i);
    }
  }

  /** `load_filtered_bigrams`. */
  method LoadFilteredBigrams(groups: seq<Group>) returns (biwids: set<Gram>)
    ensures forall p :: p in biwids <==> InSomeCase(p, groups)
  {
    biwids := {};
    for i := 0 to |groups|
      invariant forall p :: p in biwids <==> InSomeCase(p, groups[..i])
    {
      ghost var before := biwids;
      for k := 0 to |groups[i].cases|
        invariant forall p :: p in biwids <==> p in before || exists j :: 0 <= j < k && groups[i].cases[j].wids == p
      {
        biwids := biwids + {groups[i].cases[k].wids};
      }
      forall p ensures p in biwids <==> InSomeCase(p, groups[..i + 1]) {
        CasesGrow(p, groups, i);
      }
    }
    assert groups[..|groups|] == groups;
  }

  ghost predicate IsCaseOf(p: Gram, grp: Group) {
    exists j :: 0 <= j < |grp.cases| && grp.cases[j].wids == p
  }

  ghost predicate InSomeCase(p: Gram, groups: seq<Group>) {
    exists i :: 0 <= i < |groups| && IsCaseOf(p, groups[i])
  }

  lemma CasesGrow(p: Gram, groups: seq<Group>, i: nat)
    requires i < |groups|
    ensures InSomeCase(p, groups[..i + 1]) <==> InSomeCase(p, groups[..i]) || IsCaseOf(p, groups[i])
  {
    var more := groups[..i + 1];
    assert more[i] == groups[i];
    assert forall k | 0 <= k < i :: more[k] == groups[..i][k];
  }
}
