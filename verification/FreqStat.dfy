/** `bifreq_stat` and `trifreq_stat` of src/colloc.cpp as a whole, with the checks that they
    make at run time. */
module FreqStat {
  import opened Orders
  import opened Corpus
  import opened Tables
  import opened Counting
  import opened Lemmer
  import opened DocFreq
  import opened Filters
  import opened Lemmatize

  /** The exceptions "doc count is zero" and "uni size does't match lemid size". */
  datatype Outcome<+T> = Done(value: T) | ZeroDocCount | SizeMismatch

  datatype PairFiles = PairFiles(bifreq: seq<Count>, lemfreq: seq<LemFreq>)

  method AnyZero(m: CountMap) returns (zero: bool)
    ensures zero <==> exists g :: g in m && m[g] == 0
  {
    zero := false;
    var rest := m.Keys;
    while rest != {}
      invariant rest <= m.Keys
      invariant zero <==> exists g :: g in m && g !in rest && m[g] == 0
      decreases |rest|
    {
      var g :| g in rest;
      zero := zero || m[g] == 0;
      rest := rest - {g};
    }
  }

  ghost predicate HasGroup(groups: seq<Group>, g: Gram) {
    exists i :: 0 <= i < |groups| && groups[i].lids == g
  }

  /** Every group has `n` lemmas. */
  ghost predicate GroupsOfLength(groups: seq<Group>, n: nat) {
    forall i | 0 <= i < |groups| :: |groups[i].lids| == n
  }

  /** The file has the lemmas of every group, each with its number of documents in 32 bits. */
  ghost predicate IsFreqFile(file: seq<Count>, lems: LemTable, groups: seq<Group>, docs: seq<seq<Phrase>>) {
    && KeysAscend(file)
    && (forall g :: HasKey(file, g) <==> HasGroup(groups, g))
    && (forall c | c in file :: c.weight == U32(Frequency(lems, c.key, docs)))
  }

  ghost predicate SomeZero(lems: LemTable, groups: seq<Group>, docs: seq<seq<Phrase>>) {
    exists i :: 0 <= i < |groups| && U32(Frequency(lems, groups[i].lids, docs)) == 0
  }

  lemma FreqFileOfMap(file: seq<Count>, m: CountMap, lems: LemTable, groups: seq<Group>, docs: seq<seq<Phrase>>)
    requires Lists(file, m) && GramFrequencies(lems, m, docs)
    requires forall g :: g in m <==> HasGroup(groups, g)
    ensures IsFreqFile(file, lems, groups, docs)
  {
    forall c | c in file ensures c.weight == U32(Frequency(lems, c.key, docs)) {
      assert HasFrequency(lems, m, c.key, c.key, docs);
    }
  }

  lemma ZeroEntry(m: CountMap, lems: LemTable, groups: seq<Group>, docs: seq<seq<Phrase>>)
    requires GramFrequencies(lems, m, docs) && forall g :: g in m <==> HasGroup(groups, g)
    ensures (exists g :: g in m && m[g] == 0) <==> SomeZero(lems, groups, docs)
  {
    forall g | g in m ensures m[g] == U32(Frequency(lems, g, docs)) {
      assert HasFrequency(lems, m, g, g, docs);
    }
    if exists g :: g in m && m[g] == 0 {
      var g :| g in m && m[g] == 0;
      var i :| 0 <= i < |groups| && groups[i].lids == g;
    }
    if SomeZero(lems, groups, docs) {
      var i :| 0 <= i < |groups| && U32(Frequency(lems, groups[i].lids, docs)) == 0;
      assert HasGroup(groups, groups[i].lids);
    }
  }

  /** lemid.bin lists every lemma of the table, each id once. */
  ghost predicate ListsLemmas(lemids: seq<LemId>, lems: LemTable) {
    && (forall i, j | 0 <= i < j < |lemids| :: lemids[i].id != lemids[j].id)
    && (forall l :: IsLemma(lems, l) ==> exists i :: 0 <= i < |lemids| && lemids[i].id == l)
  }

  ghost function IdsOf(lemids: seq<LemId>): (s: set<nat>)
    ensures forall l :: l in s <==> exists i :: 0 <= i < |lemids| && lemids[i].id == l
  {
    set i | 0 <= i < |lemids| :: lemids[i].id
  }

  lemma {:induction false} IdsOfSize(lemids: seq<LemId>)
    requires forall i, j | 0 <= i < j < |lemids| :: lemids[i].id != lemids[j].id
    ensures |IdsOf(lemids)| == |lemids|
  {
    if lemids != [] {
      var n := |lemids| - 1;
      IdsOfSize(lemids[..n]);
      assert lemids == lemids[..n] + [lemids[n]];
      assert IdsOf(lemids) == IdsOf(lemids[..n]) + {lemids[n].id};
    }
  }

  lemma SameSize(s: set<nat>, t: set<nat>)
    requires s <= t
    ensures |s| == |t| <==> s == t
  {
    if s != t {
      var x :| x in t && x !in s;
      SubsetSize(s, t - {x});
    }
  }

  lemma OccurringIsLemma(lems: LemTable, l: nat, docs: seq<seq<Phrase>>)
    requires Frequency(lems, [l], docs) > 0
    ensures IsLemma(lems, l)
    decreases |docs|
  {
    var n := |docs| - 1;
    if InDoc(lems, [l], docs[n]) {
      var w :| w in AllWindows(1, docs[n]) && Carries(lems, [l], w);
      assert [l][0] in LemsOf(lems, w[0]);
    } else {
      OccurringIsLemma(lems, l, docs[..n]);
    }
  }

  /** The size check of `merge_unifreq` compares the lemmas seen with the lemmas known. */
  lemma SizesAgree(uni: map<nat, u32>, lems: LemTable, lemids: seq<LemId>, docs: seq<seq<Phrase>>)
    requires LemmaFrequencies(lems, uni, docs) && ListsLemmas(lemids, lems)
    ensures |uni| == |lemids| <==> uni.Keys == IdsOf(lemids)
    ensures |uni| == |lemids| <==> forall m | m in lemids :: Frequency(lems, [m.id], docs) > 0
  {
    IdsOfSize(lemids);
    assert |uni| == |uni.Keys|;
    forall l | l in uni ensures l in IdsOf(lemids) {
      assert HasLemmaFrequency(lems, uni, docs, l);
      OccurringIsLemma(lems, l, docs);
    }
    SameSize(uni.Keys, IdsOf(lemids));
    forall m | m in lemids ensures m.id in uni <==> Frequency(lems, [m.id], docs) > 0 {
      assert HasLemmaFrequency(lems, uni, docs, m.id);
    }
    assert forall m | m in lemids :: m.id in IdsOf(lemids);
    assert (forall m | m in lemids :: m.id in uni) <==> IdsOf(lemids) <= uni.Keys;
  }

  /** `bifreq_stat`. The first check fires exactly if some group's count of documents is zero in
      32 bits, the second exactly if some known lemma is in no finished document. */
  method BiFreqStat(corpus: seq<Phrase>, lems: LemTable, groups: seq<Group>, lemids: seq<LemId>)
    returns (r: Outcome<PairFiles>)
    requires GroupsOfLength(groups, 2) && ListsLemmas(lemids, lems)
    ensures r.ZeroDocCount? <==> SomeZero(lems, groups, Divide(corpus).docs)
    ensures !r.ZeroDocCount? ==>
              (r.Done? <==> forall m | m in lemids :: Frequency(lems, [m.id], Divide(corpus).docs) > 0)
    ensures r.Done? ==>
              && IsFreqFile(r.value.bifreq, lems, groups, Divide(corpus).docs)
              && |r.value.lemfreq| == |lemids|
              && forall i | 0 <= i < |lemids| :: r.value.lemfreq[i] ==
                   LemFreq(lemids[i].str, lemids[i].id, U32(Frequency(lems, [lemids[i].id], Divide(corpus).docs)))
  {
    ghost var docs := Divide(corpus).docs;
    var zero := ZeroCounts(groups);
    assert forall g :: g in zero <==> HasGroup(groups, g);
    var uni, bi := CountPairDocs(corpus, lems, zero);
    assert forall g :: g in bi <==> g in bi.Keys;
    ZeroEntry(bi, lems, groups, docs);
    var bad := AnyZero(bi);
    if bad {
      return ZeroDocCount;
    }
    var bifreq, _ := SaveCounts(bi);
    FreqFileOfMap(bifreq, bi, lems, groups, docs);
    SizesAgree(uni, lems, lemids, docs);
    assert forall m | m in lemids :: m.id in IdsOf(lemids);
    var lemfreq := MergeUniFreq(uni, lemids);
    if lemfreq.None? {
      return SizeMismatch;
    }
    r := Done(PairFiles(bifreq, lemfreq.value));
    forall i | 0 <= i < |lemids| ensures uni[lemids[i].id] == U32(Frequency(lems, [lemids[i].id], docs)) {
      assert lemids[i] in lemids;
      assert HasLemmaFrequency(lems, uni, docs, lemids[i].id);
    }
  }

  /** `trifreq_stat`. */
  method TriFreqStat(corpus: seq<Phrase>, lems: LemTable, groups: seq<Group>) returns (r: Outcome<seq<Count>>)
    requires GroupsOfLength(groups, 3)
    ensures r.ZeroDocCount? <==> SomeZero(lems, groups, Divide(corpus).docs)
    ensures !r.SizeMismatch?
    ensures r.Done? ==> IsFreqFile(r.value, lems, groups, Divide(corpus).docs)
  {
    ghost var docs := Divide(corpus).docs;
    var zero := ZeroCounts(groups);
    assert forall g :: g in zero <==> HasGroup(groups, g);
    var tri := CountTripleDocs(corpus, lems, zero);
    assert forall g :: g in tri <==> g in tri.Keys;
    ZeroEntry(tri, lems, groups, docs);
    var bad := AnyZero(tri);
    if bad {
      return ZeroDocCount;
    }
    var file, _ := SaveCounts(tri);
    FreqFileOfMap(file, tri, lems, groups, docs);
    r := Done(file);
  }
}
