/** What the files of a run say of one another. */
module RunFacts {
  import opened Orders
  import opened Bags
  import opened Corpus
  import opened Convert
  import opened Tables
  import opened Counting
  import opened Lemmer
  import opened Weights
  import opened DocFreq
  import opened DocFacts
  import opened Conservation
  import opened CorpusFacts
  import opened Preparation
  import opened Pipeline

  // The order of the files -----------------------------------------------------------------------

  /** bi.bin and bifreq.bin come in the order of the first ids, then of the second. */
  lemma PairTablesAscend(f: Files, s: Settings)
    requires HasPairs(f, s)
    ensures forall i | 0 <= i < |f.bi| :: |f.bi[i].key| == 2
    ensures forall i | 0 <= i < |f.bifreq| :: |f.bifreq[i].key| == 2
    ensures forall i, j | 0 <= i < j < |f.bi| ::
              f.bi[i].key[0] < f.bi[j].key[0] || (f.bi[i].key[0] == f.bi[j].key[0] && f.bi[i].key[1] < f.bi[j].key[1])
    ensures forall i, j | 0 <= i < j < |f.bifreq| ::
              f.bifreq[i].key[0] < f.bifreq[j].key[0]
              || (f.bifreq[i].key[0] == f.bifreq[j].key[0] && f.bifreq[i].key[1] < f.bifreq[j].key[1])
  {
    WindowsHaveLength(2, f.corpus);
    KeyInBag(f.bi, multiset(AllWindows(2, f.corpus)), 2);
    PairsAscend(f.bi);
    PairFileAscends(f.lems, f.corpus, |f.lemids|, s.pairThreshold, f.extended2);
    forall i | 0 <= i < |f.bifreq| ensures |f.bifreq[i].key| == 2 {
      assert HasKey(f.bifreq, f.bifreq[i].key);
    }
    PairsAscend(f.bifreq);
  }

  /** tri.bin and trifreq.bin likewise. */
  lemma TripleTablesAscend(f: Files, s: Settings, kept: set<Gram>)
    requires HasTriples(f, s, kept)
    ensures forall i | 0 <= i < |f.tri| :: |f.tri[i].key| == 3
    ensures forall i | 0 <= i < |f.trifreq| :: |f.trifreq[i].key| == 3
    ensures forall i, j | 0 <= i < j < |f.tri| ::
              f.tri[i].key[0] < f.tri[j].key[0]
              || (f.tri[i].key[0] == f.tri[j].key[0]
                  && (f.tri[i].key[1] < f.tri[j].key[1]
                      || (f.tri[i].key[1] == f.tri[j].key[1] && f.tri[i].key[2] < f.tri[j].key[2])))
    ensures forall i, j | 0 <= i < j < |f.trifreq| ::
              f.trifreq[i].key[0] < f.trifreq[j].key[0]
              || (f.trifreq[i].key[0] == f.trifreq[j].key[0]
                  && (f.trifreq[i].key[1] < f.trifreq[j].key[1]
                      || (f.trifreq[i].key[1] == f.trifreq[j].key[1] && f.trifreq[i].key[2] < f.trifreq[j].key[2])))
  {
    AdmittedLength(f.tri, kept, AllWindows(3, f.corpus));
    TriplesAscend(f.tri);
    TripleFileAscends(f.lems, f.corpus, kept, |f.lemids|, s.tripleThreshold, f.extended3);
    forall i | 0 <= i < |f.trifreq| ensures |f.trifreq[i].key| == 3 {
      assert HasKey(f.trifreq, f.trifreq[i].key);
    }
    TriplesAscend(f.trifreq);
  }

  /** The filtered files have the groups over both thresholds, and their scores do not rise. */
  lemma BestFirst(f: Files, s: Settings, kept: set<Gram>)
    requires Extracted(f, s, kept)
    ensures forall i, j | 0 <= i < j < |f.bifiltered| :: f.bifiltered[i].weight >= f.bifiltered[j].weight
    ensures forall i, j | 0 <= i < j < |f.trifiltered| :: f.trifiltered[i].weight >= f.trifiltered[j].weight
    ensures var docs := Divide(f.corpus).docs;
            && (forall grp :: grp in f.bifiltered <==>
                 grp in f.extended2 && Frequency(f.lems, grp.lids, docs) > s.pairDocs && grp.weight > s.pairScore)
            && (forall grp :: grp in f.trifiltered <==>
                 grp in f.extended3 && Frequency(f.lems, grp.lids, docs) > s.tripleDocs && grp.weight > s.tripleScore)
  {
    var docs := Divide(f.corpus).docs;
    SelectedIff(f.bifiltered, f.lems, docs, s.pairDocs, s.pairScore, f.extended2);
    SelectedIff(f.trifiltered, f.lems, docs, s.tripleDocs, s.tripleScore, f.extended3);
    SelectedFalls(f.bifiltered, f.lems, docs, s.pairDocs, s.pairScore, f.extended2);
    SelectedFalls(f.trifiltered, f.lems, docs, s.tripleDocs, s.tripleScore, f.extended3);
  }

  // Document counts ----------------------------------------------------------------------------

  /** A pair of lemmas is in no more documents than either lemma. */
  lemma PairInFewerDocuments(f: Files, s: Settings, c: Count, k: nat, i: nat)
    requires HasPairs(f, s) && c in f.bifreq && k < |c.key|
    requires i < |f.lemids| && f.lemids[i].id == c.key[k]
    ensures |f.lemfreq| == |f.lemids| && c.weight <= f.lemfreq[i].weight
  {
    FrequencyAtMostPart(f.lems, c.key, Divide(f.corpus).docs, k, k + 1);
    assert c.key[k..k + 1] == [f.lemids[i].id];
  }

  /** A triple of lemmas is in no more documents than a pair that is part of it. */
  lemma TripleInFewerDocuments(f: Files, s: Settings, kept: set<Gram>, c: Count, d: Count, a: nat)
    requires HasPairs(f, s) && HasTriples(f, s, kept) && c in f.trifreq && d in f.bifreq
    requires a + 2 <= |c.key| && d.key == c.key[a..a + 2]
    ensures c.weight <= d.weight
  {
    FrequencyAtMostPart(f.lems, c.key, Divide(f.corpus).docs, a, a + 2);
  }

  /** A pair of lemmas is in no more documents than its cases have occurrences. */
  lemma DocumentsHaveCases(f: Files, s: Settings, grp: Group)
    requires Prepared(f.corpus, f.uni, f.lems, f.lemids) && HasPairs(f, s) && grp in f.extended2
    ensures Frequency(f.lems, grp.lids, Divide(f.corpus).docs) as real <= Sum(CaseCount, grp.cases)
  {
    var grams := AllWindows(2, f.corpus);
    assert IsPairGroup(f.lems, f.corpus, |f.lemids|, s.pairThreshold, grp);
    FewerWindows(2, f.corpus);
    SmallIsExact(f.bi, grams);
    TableCovered(f.lems, 2, f.corpus, f.bi, grams);
    CasesExpected(f.lems, grp.lids, f.bi, grams, grp.cases);
    FrequencyAtMostCases(f.lems, grp.lids, f.bi, f.corpus, grp.cases);
  }

  // Triples whose windows are admitted --------------------------------------------------------

  /** A triple is in no more documents than its cases and the windows left out have occurrences. */
  lemma TripleDocuments(f: Files, s: Settings, kept: set<Gram>, grp: Group)
    requires Extracted(f, s, kept) && grp in f.extended3
    ensures Frequency(f.lems, grp.lids, Divide(f.corpus).docs) as real <=
            Sum(CaseCount, grp.cases)
            + Carriers(f.lems, grp.lids, AllWindows(3, f.corpus)) - Carriers(f.lems, grp.lids, Triples(kept, f.corpus))
  {
    var g, grams := grp.lids, Triples(kept, f.corpus);
    assert IsTripleGroup(f.lems, f.corpus, kept, |f.lemids|, s.tripleThreshold, grp);
    FrequencyAtMostCarriers(f.lems, g, f.corpus);
    CarriersBound(f.lems, g, AllWindows(3, Divide(f.corpus).open));
    FewerWindows(3, f.corpus);
    AdmitSubset(kept, AllWindows(3, f.corpus));
    SmallIsExact(f.tri, grams);
    TableCovered(f.lems, 3, f.corpus, f.tri, grams);
    CasesExpected(f.lems, g, f.tri, grams, grp.cases);
    CasesCoverCarriers(f.lems, g, f.tri, grams, grp.cases);
  }

  /** If one of its pairs is selected, a triple has its whole weight in the corpus and is in no more
      documents than its cases have occurrences. */
  lemma TripleOfSelectedPair(f: Files, s: Settings, kept: set<Gram>, grp: Group, pair: Group)
    requires Extracted(f, s, kept) && grp in f.extended3 && |grp.lids| == 3
    requires pair in f.bifiltered && (pair.lids == grp.lids[..2] || pair.lids == grp.lids[1..])
    ensures TripleWeight(f.lems, grp.lids, kept, f.corpus) == CorpusWeight(f.lems, grp.lids, f.corpus)
    ensures Frequency(f.lems, grp.lids, Divide(f.corpus).docs) as real <= Sum(CaseCount, grp.cases)
  {
    SelectedPairAdmits(f.lems, grp.lids, kept, f.corpus, f.bifiltered, pair);
    TripleWeightIff(f.lems, grp.lids, kept, f.corpus);
    TripleCarriersIff(f.lems, grp.lids, kept, f.corpus);
    TripleDocuments(f, s, kept, grp);
  }

  // Conservation --------------------------------------------------------------------------------

  /** `list` names every reading that occurs once. */
  ghost predicate NamesOccurring(lems: LemTable, grams: seq<Gram>, list: seq<Gram>) {
    Distinct(list) && forall g | Occurs(lems, g, grams) :: g in list
  }

  ghost function WeightIn(lems: LemTable, grams: seq<Gram>): Gram -> real {
    (g: Gram) => JointIn(ShareOf(lems), g, grams)
  }

  lemma WeightsAddUp(lems: LemTable, n: nat, corpus: seq<Phrase>, table: seq<Count>, grams: seq<Gram>, list: seq<Gram>)
    requires n > 0 && KnownWords(lems, corpus) && forall g | g in grams :: g in AllWindows(n, corpus)
    requires Exact(table, grams) && NamesOccurring(lems, grams, list)
    ensures Sum(WeightIn(lems, grams), list) == |grams| as real
  {
    TableCovered(lems, n, corpus, table, grams);
    forall c | c in table ensures forall g | g in Product(lems, c.key) :: g in list {
      var i :| 0 <= i < |table| && table[i] == c;
      assert HasKey(table, c.key) && Listed(table, grams, c.key);
      forall g | g in Product(lems, c.key) ensures g in list {
        CarriedIsReading(lems, g, c.key);
        assert c.key in grams && Occurs(lems, g, grams);
      }
    }
    WindowsAddUp(lems, table, grams, list);
    SumSame(WeightIn(lems, grams), (g: Gram) => JointIn(ShareOf(lems), g, grams), list);
  }

  /** The weights of all lemmas add up to the number of words of the corpus. */
  lemma LemmaWeightsAddUp(f: Files, s: Settings, kept: set<Gram>, list: seq<Gram>)
    requires Extracted(f, s, kept) && NamesOccurring(f.lems, AllWindows(1, f.corpus), list)
    ensures Sum(WeightIn(f.lems, AllWindows(1, f.corpus)), list) == |AllWindows(1, f.corpus)| as real
  {
    WeightsAddUp(f.lems, 1, f.corpus, AsCounts(f.uni), AllWindows(1, f.corpus), list);
  }

  /** Those of all pairs, before the threshold, to the number of adjacent words. */
  lemma PairWeightsAddUp(f: Files, s: Settings, kept: set<Gram>, list: seq<Gram>)
    requires Extracted(f, s, kept) && NamesOccurring(f.lems, AllWindows(2, f.corpus), list)
    ensures Sum(WeightIn(f.lems, AllWindows(2, f.corpus)), list) == |AllWindows(2, f.corpus)| as real
  {
    FewerWindows(2, f.corpus);
    SmallIsExact(f.bi, AllWindows(2, f.corpus));
    WeightsAddUp(f.lems, 2, f.corpus, f.bi, AllWindows(2, f.corpus), list);
  }

  /** Those of all triples, before the threshold, to the number of admitted windows. */
  lemma TripleWeightsAddUp(f: Files, s: Settings, kept: set<Gram>, list: seq<Gram>)
    requires Extracted(f, s, kept) && NamesOccurring(f.lems, Triples(kept, f.corpus), list)
    ensures Sum(WeightIn(f.lems, Triples(kept, f.corpus)), list) == |Triples(kept, f.corpus)| as real
  {
    FewerWindows(3, f.corpus);
    AdmitSubset(kept, AllWindows(3, f.corpus));
    SmallIsExact(f.tri, Triples(kept, f.corpus));
    WeightsAddUp(f.lems, 3, f.corpus, f.tri, Triples(kept, f.corpus), list);
  }
}
