/** The stages of src/extract.cpp in their order, and what the files hold at the end. */
module Pipeline {
  import opened Orders
  import opened Bags
  import opened Corpus
  import opened Tables
  import opened Counting
  import opened Convert
  import opened Lemmer
  import opened Weights
  import opened Grouping
  import opened Meaning
  import opened Scores
  import opened DocFreq
  import opened DocFacts
  import opened Filters
  import opened Lemmatize
  import opened FreqStat
  import opened CorpusFacts
  import opened Preparation
  import opened RawFacts

  // group_lem2, group_lem3 -------------------------------------------------------------------

  /** `L`, the number of lemmas that `build_lem_weights` finds, is the number of lemmas listed. */
  lemma LemmaCount(lidW: map<nat, real>, corpus: seq<Phrase>, uni: seq<Unigram>, lems: LemTable, lemids: seq<LemId>)
    requires Prepared(corpus, uni, lems, lemids) && WeighsLemmas(lidW, lems, corpus)
    ensures |lidW| == |lemids|
  {
    IdsOfSize(lemids);
    forall l ensures l in lidW.Keys <==> l in IdsOf(lemids) {
      assert WeighsLemma(lidW, lems, corpus, l);
      if l in lidW {
        var w :| w in AllWindows(1, corpus) && Carries(lems, [l], w);
        assert [l][0] in LemsOf(lems, w[0]);
        assert IsLemma(lems, l);
      }
    }
    assert lidW.Keys == IdsOf(lemids);
    assert |lidW.Keys| == |lidW|;
  }

  method LemmaWeightsOf(
    ghost corpus: seq<Phrase>, uni: seq<Unigram>, lems: LemTable, ghost lemids: seq<LemId>)
    returns (lidW: map<nat, real>)
    requires Prepared(corpus, uni, lems, lemids)
    ensures WeighsLemmas(lidW, lems, corpus) && |lidW| == |lemids|
  {
    AsCountsAt(uni);
    lidW := BuildLemWeights(AsCounts(uni), lems);
    LemmaWeights(lidW, lems, AsCounts(uni), corpus);
    LemmaCount(lidW, corpus, uni, lems, lemids);
  }

  /** `group_lem2`. */
  method GroupPairs(
    uni: seq<Unigram>, file: LemTable, bi: seq<Count>, threshold: real, maxElems: nat,
    ghost corpus: seq<Phrase>, ghost lemids: seq<LemId>)
    returns (groups: seq<Group>)
    requires Prepared(corpus, uni, file, lemids) && Exact(bi, AllWindows(2, corpus))
    ensures IsPairFile(file, corpus, |lemids|, threshold, groups)
    ensures forall i | 0 <= i < |groups| :: |groups[i].lids| == 2
    ensures forall i, j | 0 <= i < j < |groups| ::
              groups[i].lids[0] < groups[j].lids[0]
              || (groups[i].lids[0] == groups[j].lids[0] && groups[i].lids[1] < groups[j].lids[1])
  {
    var lems := LoadLems(file);
    var lidW := LemmaWeightsOf(corpus, uni, lems, lemids);
    TableCovered(lems, 2, corpus, bi, AllWindows(2, corpus));
    groups := MakeGroups(bi, lems, Score2(lidW, threshold), maxElems);
    PairFileMeant(lidW, lems, corpus, threshold, bi, groups);
    PairFileAscends(lems, corpus, |lemids|, threshold, groups);
  }

  /** `group_lem3`. */
  method GroupTriples(
    uni: seq<Unigram>, file: LemTable, tri: seq<Count>, threshold: real, maxElems: nat,
    ghost corpus: seq<Phrase>, ghost lemids: seq<LemId>, ghost kept: set<Gram>)
    returns (groups: seq<Group>)
    requires Prepared(corpus, uni, file, lemids) && Exact(tri, Triples(kept, corpus))
    ensures IsTripleFile(file, corpus, kept, |lemids|, threshold, groups)
    ensures forall i | 0 <= i < |groups| :: |groups[i].lids| == 3
    ensures forall i, j | 0 <= i < j < |groups| ::
              groups[i].lids[0] < groups[j].lids[0]
              || (groups[i].lids[0] == groups[j].lids[0]
                  && (groups[i].lids[1] < groups[j].lids[1]
                      || (groups[i].lids[1] == groups[j].lids[1] && groups[i].lids[2] < groups[j].lids[2])))
  {
    var lems := LoadLems(file);
    var lidW := LemmaWeightsOf(corpus, uni, lems, lemids);
    AdmitSubset(kept, AllWindows(3, corpus));
    TableCovered(lems, 3, corpus, tri, Triples(kept, corpus));
    groups := MakeGroups(tri, lems, Score3(lidW, threshold), maxElems);
    TripleFileMeant(lidW, lems, corpus, kept, threshold, tri, groups);
    TripleFileAscends(lems, corpus, kept, |lemids|, threshold, groups);
  }

  // The run-time checks of bifreq_stat and trifreq_stat ------------------------------------------

  /** The lemmas of every group occur in the corpus, `n` words at a time. */
  ghost predicate GroupsOccur(lems: LemTable, corpus: seq<Phrase>, n: nat, groups: seq<Group>) {
    forall i | 0 <= i < |groups| :: |groups[i].lids| == n && Occurs(lems, groups[i].lids, AllWindows(n, corpus))
  }

  lemma PairsOccur(lems: LemTable, corpus: seq<Phrase>, l: nat, t: real, groups: seq<Group>)
    requires IsPairFile(lems, corpus, l, t, groups)
    ensures GroupsOccur(lems, corpus, 2, groups)
  {
    forall i | 0 <= i < |groups|
      ensures |groups[i].lids| == 2 && Occurs(lems, groups[i].lids, AllWindows(2, corpus))
    {
      assert groups[i] in groups && Meaning.HasLids(groups, groups[i].lids);
      assert HasPair(lems, corpus, t, groups[i].lids);
    }
  }

  lemma GroupTriplesOccur(lems: LemTable, corpus: seq<Phrase>, kept: set<Gram>, l: nat, t: real, groups: seq<Group>)
    requires IsTripleFile(lems, corpus, kept, l, t, groups)
    ensures GroupsOccur(lems, corpus, 3, groups)
  {
    forall i | 0 <= i < |groups|
      ensures |groups[i].lids| == 3 && Occurs(lems, groups[i].lids, AllWindows(3, corpus))
    {
      assert groups[i] in groups && Meaning.HasLids(groups, groups[i].lids);
      assert HasTriple(lems, corpus, kept, t, groups[i].lids);
      TriplesOccur(lems, groups[i].lids, kept, corpus);
    }
  }

  /** What a reading that occurs is worth to the counters: its number of documents, at least one,
      and nothing lost to 32 bits. */
  lemma CounterIsExact(lems: LemTable, g: Gram, corpus: seq<Phrase>)
    requires Finished(corpus) && |AllWindows(1, corpus)| < 0x1_0000_0000
    requires g != [] && Occurs(lems, g, AllWindows(|g|, corpus))
    ensures var f := Frequency(lems, g, Divide(corpus).docs); U32(f) == f > 0
  {
    FewerWindows(|g|, corpus);
    FrequencyFits(lems, g, corpus);
  }

  /** "doc count is zero" is never reported. */
  lemma NoZeroCount(lems: LemTable, corpus: seq<Phrase>, n: nat, groups: seq<Group>)
    requires Finished(corpus) && |AllWindows(1, corpus)| < 0x1_0000_0000
    requires n > 0 && GroupsOccur(lems, corpus, n, groups)
    ensures !SomeZero(lems, groups, Divide(corpus).docs)
  {
    forall i | 0 <= i < |groups| ensures U32(Frequency(lems, groups[i].lids, Divide(corpus).docs)) != 0 {
      CounterIsExact(lems, groups[i].lids, corpus);
    }
  }

  /** "uni size doesn't match lemid size" is never reported. */
  lemma EveryLemmaSeen(corpus: seq<Phrase>, uni: seq<Unigram>, lems: LemTable, lemids: seq<LemId>, m: LemId)
    requires Prepared(corpus, uni, lems, lemids) && m in lemids
    ensures var f := Frequency(lems, [m.id], Divide(corpus).docs); U32(f) == f > 0
  {
    CounterIsExact(lems, [m.id], corpus);
  }

  /** bifreq.bin or trifreq.bin: every group's true number of documents, at least one. */
  ghost predicate CountsDocuments(file: seq<Count>, lems: LemTable, docs: seq<seq<Phrase>>, groups: seq<Group>) {
    && KeysAscend(file)
    && (forall g :: HasKey(file, g) <==> HasGroup(groups, g))
    && (forall c | c in file :: c.weight == Frequency(lems, c.key, docs) > 0)
  }

  lemma FreqFileExact(file: seq<Count>, lems: LemTable, corpus: seq<Phrase>, n: nat, groups: seq<Group>)
    requires Finished(corpus) && |AllWindows(1, corpus)| < 0x1_0000_0000
    requires n > 0 && GroupsOccur(lems, corpus, n, groups) && IsFreqFile(file, lems, groups, Divide(corpus).docs)
    ensures CountsDocuments(file, lems, Divide(corpus).docs, groups)
  {
    forall c | c in file ensures c.weight == Frequency(lems, c.key, Divide(corpus).docs) > 0 {
      var j :| 0 <= j < |file| && file[j] == c;
      assert HasKey(file, c.key);
      var i :| 0 <= i < |groups| && groups[i].lids == c.key;
      CounterIsExact(lems, c.key, corpus);
    }
  }

  /** lemfreq.bin: the lemmas of lemid.bin with their true numbers of documents. */
  ghost predicate CountsLemmas(lemfreq: seq<LemFreq>, lems: LemTable, docs: seq<seq<Phrase>>, lemids: seq<LemId>) {
    && |lemfreq| == |lemids|
    && forall i | 0 <= i < |lemids| ::
         && lemfreq[i].str == lemids[i].str && lemfreq[i].id == lemids[i].id
         && lemfreq[i].weight == Frequency(lems, [lemids[i].id], docs) > 0
  }

  /** `bifreq_stat` on the files of the stages before it. */
  method PairFrequencies(
    corpus: seq<Phrase>, file: LemTable, groups: seq<Group>, lemids: seq<LemId>, ghost uni: seq<Unigram>)
    returns (bifreq: seq<Count>, lemfreq: seq<LemFreq>)
    requires Prepared(corpus, uni, file, lemids) && GroupsOccur(file, corpus, 2, groups)
    ensures CountsDocuments(bifreq, file, Divide(corpus).docs, groups)
    ensures CountsLemmas(lemfreq, file, Divide(corpus).docs, lemids)
  {
    var lems := LoadLems(file);
    NoZeroCount(lems, corpus, 2, groups);
    forall m | m in lemids ensures var f := Frequency(lems, [m.id], Divide(corpus).docs); U32(f) == f > 0 {
      EveryLemmaSeen(corpus, uni, lems, lemids, m);
    }
    var r := BiFreqStat(corpus, lems, groups, lemids);
    assert r.Done?;
    bifreq, lemfreq := r.value.bifreq, r.value.lemfreq;
    FreqFileExact(bifreq, lems, corpus, 2, groups);
    assert forall i | 0 <= i < |lemids| :: lemids[i] in lemids;
  }

  /** `trifreq_stat` on the files of the stages before it. */
  method TripleFrequencies(corpus: seq<Phrase>, file: LemTable, groups: seq<Group>) returns (trifreq: seq<Count>)
    requires Finished(corpus) && |AllWindows(1, corpus)| < 0x1_0000_0000
    requires GroupsOccur(file, corpus, 3, groups)
    ensures CountsDocuments(trifreq, file, Divide(corpus).docs, groups)
  {
    var lems := LoadLems(file);
    NoZeroCount(lems, corpus, 3, groups);
    var r := TriFreqStat(corpus, lems, groups);
    assert r.Done?;
    trifreq := r.value;
    FreqFileExact(trifreq, lems, corpus, 3, groups);
  }

  // The filters ------------------------------------------------------------------------------------

  /** bifiltered.bin or trifiltered.bin: the groups in more than `th1` documents and with a score
      above `th2`, best score first. */
  ghost predicate IsSelection(
    out: seq<Group>, lems: LemTable, docs: seq<seq<Phrase>>, th1: u32, th2: real, groups: seq<Group>)
  {
    && Sorted(GroupLess, out)
    && forall grp :: multiset(out)[grp] == Selected(lems, docs, th1, th2, groups, grp)
  }

  ghost function Selected(
    lems: LemTable, docs: seq<seq<Phrase>>, th1: u32, th2: real, groups: seq<Group>, grp: Group): nat
  {
    if Frequency(lems, grp.lids, docs) > th1 && grp.weight > th2 then multiset(groups)[grp] else 0
  }

  /** The map read back from a frequency file. */
  ghost predicate IsLoaded(freqs: CountMap, file: seq<Count>) {
    (forall k :: k in freqs <==> HasKey(file, k)) && (forall c | c in file :: freqs[c.key] == c.weight)
  }

  lemma FrequencyOf(
    freqs: CountMap, file: seq<Count>, lems: LemTable, docs: seq<seq<Phrase>>, groups: seq<Group>, grp: Group)
    requires CountsDocuments(file, lems, docs, groups) && IsLoaded(freqs, file) && grp in groups
    ensures grp.lids in freqs && freqs[grp.lids] == Frequency(lems, grp.lids, docs)
  {
    var i :| 0 <= i < |groups| && groups[i] == grp;
    assert HasGroup(groups, grp.lids) && HasKey(file, grp.lids);
    var j :| 0 <= j < |file| && file[j].key == grp.lids;
    assert file[j] in file;
  }

  lemma FilteredIsSelection(
    out: seq<Group>, freqs: CountMap, file: seq<Count>, lems: LemTable, docs: seq<seq<Phrase>>,
    th1: u32, th2: real, groups: seq<Group>)
    requires CountsDocuments(file, lems, docs, groups) && IsLoaded(freqs, file)
    requires IsFiltered(out, freqs, th1, th2, groups)
    ensures IsSelection(out, lems, docs, th1, th2, groups)
  {
    forall grp ensures multiset(out)[grp] == Selected(lems, docs, th1, th2, groups, grp) {
      PassingCopies(freqs, th1, th2, groups, grp);
      if grp in groups {
        FrequencyOf(freqs, file, lems, docs, groups, grp);
      } else {
        assert multiset(groups)[grp] == 0;
      }
    }
  }

  lemma SelectedIff(
    out: seq<Group>, lems: LemTable, docs: seq<seq<Phrase>>, th1: u32, th2: real, groups: seq<Group>)
    requires IsSelection(out, lems, docs, th1, th2, groups)
    ensures forall grp :: grp in out <==>
                          grp in groups && Frequency(lems, grp.lids, docs) > th1 && grp.weight > th2
  {
    forall grp
      ensures grp in out <==> grp in groups && Frequency(lems, grp.lids, docs) > th1 && grp.weight > th2
    {
      assert grp in out <==> grp in multiset(out);
      assert grp in groups <==> grp in multiset(groups);
    }
  }

  lemma SelectedFalls(
    out: seq<Group>, lems: LemTable, docs: seq<seq<Phrase>>, th1: u32, th2: real, groups: seq<Group>)
    requires IsSelection(out, lems, docs, th1, th2, groups)
    ensures forall i, j | 0 <= i < j < |out| :: out[i].weight >= out[j].weight
  {
    forall i, j | 0 <= i < j < |out| ensures out[i].weight >= out[j].weight {
      assert !GroupLess(out[i], out[j]);
    }
  }

  /** The selected groups are among the groups. */
  lemma SelectedAmong(
    out: seq<Group>, lems: LemTable, docs: seq<seq<Phrase>>, th1: u32, th2: real, groups: seq<Group>, grp: Group)
    requires IsSelection(out, lems, docs, th1, th2, groups) && grp in out
    ensures grp in groups && Frequency(lems, grp.lids, docs) > th1 && grp.weight > th2
  {
    assert grp in multiset(out) && Selected(lems, docs, th1, th2, groups, grp) > 0;
    assert grp in multiset(groups);
  }

  /** `filter_bilems`. */
  method SelectPairs(
    groups: seq<Group>, bifreq: seq<Count>, th1: u32, th2: real, maxElems: nat,
    ghost lems: LemTable, ghost docs: seq<seq<Phrase>>)
    returns (out: seq<Group>)
    requires CountsDocuments(bifreq, lems, docs, groups)
    ensures IsSelection(out, lems, docs, th1, th2, groups)
    ensures forall i, j | 0 <= i < j < |out| :: out[i].weight >= out[j].weight
    ensures forall grp :: grp in out <==>
                          grp in groups && Frequency(lems, grp.lids, docs) > th1 && grp.weight > th2
  {
    AscendingIsDistinct(bifreq);
    var freqs := LoadCounts(bifreq);
    forall grp | grp in groups ensures grp.lids in freqs {
      FrequencyOf(freqs, bifreq, lems, docs, groups, grp);
    }
    out := FilterBilems(groups, freqs, th1, th2, maxElems);
    FilteredIsSelection(out, freqs, bifreq, lems, docs, th1, th2, groups);
    SelectedIff(out, lems, docs, th1, th2, groups);
  }

  /** `filter_trilems`. */
  method SelectTriples(
    groups: seq<Group>, trifreq: seq<Count>, th1: u32, th2: real, ghost lems: LemTable, ghost docs: seq<seq<Phrase>>)
    returns (out: seq<Group>)
    requires CountsDocuments(trifreq, lems, docs, groups)
    ensures IsSelection(out, lems, docs, th1, th2, groups)
    ensures forall i, j | 0 <= i < j < |out| :: out[i].weight >= out[j].weight
    ensures forall grp :: grp in out <==>
                          grp in groups && Frequency(lems, grp.lids, docs) > th1 && grp.weight > th2
  {
    AscendingIsDistinct(trifreq);
    var freqs := LoadCounts(trifreq);
    forall grp | grp in groups ensures grp.lids in freqs {
      FrequencyOf(freqs, trifreq, lems, docs, groups, grp);
    }
    out := FilterTrilems(groups, freqs, th1, th2);
    FilteredIsSelection(out, freqs, trifreq, lems, docs, th1, th2, groups);
    SelectedIff(out, lems, docs, th1, th2, groups);
  }

  // The kept pairs of words ---------------------------------------------------------------------------

  /** The pairs of words among the cases of the selected groups are the kept ones. */
  lemma KeptPairs(
    lems: LemTable, corpus: seq<Phrase>, l: nat, t: real, th1: u32, th2: real,
    groups: seq<Group>, selected: seq<Group>, p: Gram)
    requires Countable(lems, AllWindows(2, corpus))
    requires IsPairFile(lems, corpus, l, t, groups)
    requires IsSelection(selected, lems, Divide(corpus).docs, th1, th2, groups)
    ensures InSomeCase(p, selected) <==> IsKept(lems, corpus, selected, p)
  {
    forall grp | grp in selected
      ensures IsCaseOf(p, grp) <==> p in AllWindows(2, corpus) && Carries(lems, grp.lids, p)
    {
      SelectedAmong(selected, lems, Divide(corpus).docs, th1, th2, groups, grp);
      assert IsPairGroup(lems, corpus, l, t, grp);
      CaseIsCarrier(lems, AllWindows(2, corpus), grp, p);
    }
    if InSomeCase(p, selected) {
      var i :| 0 <= i < |selected| && IsCaseOf(p, selected[i]);
      assert selected[i] in selected;
    }
    if IsKept(lems, corpus, selected, p) {
      var grp :| grp in selected && Carries(lems, grp.lids, p);
      var i :| 0 <= i < |selected| && selected[i] == grp;
      assert IsCaseOf(p, selected[i]);
    }
  }

  // extract ------------------------------------------------------------------------------------------------

  /** The constants of the source: documents per chunk, records per sorted part, thresholds of
      joint weights, and what the filters ask for. */
  datatype Settings = Settings(
    chunkDocs: nat, maxExtended: nat, maxGroups: nat,
    pairThreshold: real, pairDocs: u32, pairScore: real,
    tripleThreshold: real, tripleDocs: u32, tripleScore: real)

  datatype Files = Files(
    corpus: seq<Phrase>, uni: seq<Unigram>, total: nat, lemids: seq<LemId>, lems: LemTable,
    bi: seq<Count>, extended2: seq<Group>, bifreq: seq<Count>, lemfreq: seq<LemFreq>, bifiltered: seq<Group>,
    tri: seq<Count>, extended3: seq<Group>, trifreq: seq<Count>, trifiltered: seq<Group>)

  ghost predicate HasPairs(f: Files, s: Settings) {
    && IsCountTable(f.bi, multiset(AllWindows(2, f.corpus)))
    && IsPairFile(f.lems, f.corpus, |f.lemids|, s.pairThreshold, f.extended2)
    && CountsDocuments(f.bifreq, f.lems, Divide(f.corpus).docs, f.extended2)
    && CountsLemmas(f.lemfreq, f.lems, Divide(f.corpus).docs, f.lemids)
    && IsSelection(f.bifiltered, f.lems, Divide(f.corpus).docs, s.pairDocs, s.pairScore, f.extended2)
  }

  ghost predicate HasTriples(f: Files, s: Settings, kept: set<Gram>) {
    && KeptBy(kept, f.lems, f.corpus, f.bifiltered)
    && IsCountTable(f.tri, multiset(Triples(kept, f.corpus)))
    && IsTripleFile(f.lems, f.corpus, kept, |f.lemids|, s.tripleThreshold, f.extended3)
    && CountsDocuments(f.trifreq, f.lems, Divide(f.corpus).docs, f.extended3)
    && IsSelection(f.trifiltered, f.lems, Divide(f.corpus).docs, s.tripleDocs, s.tripleScore, f.extended3)
  }

  /** Every file in terms of the corpus; counts and chunk sizes play no part. */
  ghost predicate Extracted(f: Files, s: Settings, kept: set<Gram>) {
    Prepared(f.corpus, f.uni, f.lems, f.lemids) && HasPairs(f, s) && HasTriples(f, s, kept)
  }

  /** From the counts of pairs to the selected pairs. */
  method PairStages(f: Files, s: Settings, glob: seq<seq<Count>> -> seq<seq<Count>>) returns (g: Files)
    requires Prepared(f.corpus, f.uni, f.lems, f.lemids)
    requires s.chunkDocs > 0 && Shuffles(glob)
    ensures g == f.(bi := g.bi, extended2 := g.extended2, bifreq := g.bifreq, lemfreq := g.lemfreq,
                    bifiltered := g.bifiltered)
    ensures HasPairs(g, s)
  {
    var bi, _ := BigramStat(f.corpus, s.chunkDocs, glob);
    FewerWindows(2, f.corpus);
    SmallIsExact(bi, AllWindows(2, f.corpus));
    var extended2 := GroupPairs(f.uni, f.lems, bi, s.pairThreshold, s.maxExtended, f.corpus, f.lemids);
    PairsOccur(f.lems, f.corpus, |f.lemids|, s.pairThreshold, extended2);
    var bifreq, lemfreq := PairFrequencies(f.corpus, f.lems, extended2, f.lemids, f.uni);
    var bifiltered := SelectPairs(extended2, bifreq, s.pairDocs, s.pairScore, s.maxGroups,
                                  f.lems, Divide(f.corpus).docs);
    g := f.(bi := bi, extended2 := extended2, bifreq := bifreq, lemfreq := lemfreq, bifiltered := bifiltered);
  }

  /** From the selected pairs to the selected triples. */
  method TripleStages(f: Files, s: Settings, glob: seq<seq<Count>> -> seq<seq<Count>>)
    returns (g: Files, kept: set<Gram>)
    requires Prepared(f.corpus, f.uni, f.lems, f.lemids) && HasPairs(f, s)
    requires s.chunkDocs > 0 && Shuffles(glob)
    ensures g == f.(tri := g.tri, extended3 := g.extended3, trifreq := g.trifreq, trifiltered := g.trifiltered)
    ensures HasTriples(g, s, kept)
  {
    kept := LoadFilteredBigrams(f.bifiltered);
    WindowsCountable(f.lems, 2, f.corpus);
    forall p ensures p in kept <==> IsKept(f.lems, f.corpus, f.bifiltered, p) {
      KeptPairs(f.lems, f.corpus, |f.lemids|, s.pairThreshold, s.pairDocs, s.pairScore, f.extended2, f.bifiltered, p);
    }
    var tri, _ := TrigramStat(f.corpus, kept, s.chunkDocs, glob);
    FewerWindows(3, f.corpus);
    AdmitSubset(kept, AllWindows(3, f.corpus));
    SmallIsExact(tri, Triples(kept, f.corpus));
    var extended3 := GroupTriples(f.uni, f.lems, tri, s.tripleThreshold, s.maxExtended, f.corpus, f.lemids, kept);
    GroupTriplesOccur(f.lems, f.corpus, kept, |f.lemids|, s.tripleThreshold, extended3);
    var trifreq := TripleFrequencies(f.corpus, f.lems, extended3);
    var trifiltered := SelectTriples(extended3, trifreq, s.tripleDocs, s.tripleScore, f.lems, Divide(f.corpus).docs);
    g := f.(tri := tri, extended3 := extended3, trifreq := trifreq, trifiltered := trifiltered);
  }

  // From the documents ------------------------------------------------------------------------

  /** The numbers in the files stand for words and terms, each for one of its own, and in the order
      of the documents. */
  ghost predicate Readable(
    f: Files, lower: seq<nat> -> Word, terms: Word -> seq<Term>, docs: seq<seq<Token>>,
    names: seq<Word>, lemNames: seq<Term>)
  {
    && Dictionary(names, terms, f.lems, lemNames) && ListsNames(names, f.uni, lemNames, f.lemids)
    && NumberedInOrder(names, AllAccepted(lower, docs), lemNames, TermsListed(f.uni, terms))
    && SpellsAll(names, f.corpus, EncodeAll(lower, docs))
    && SpellsDocs(names, Divide(f.corpus).docs, NonEmptyRuns(lower, docs))
    && forall n: nat | n > 0 :: SpellsAll(names, AllWindows(n, f.corpus), RawWindows(lower, n, docs))
  }

  ghost predicate CountsTermDocuments(
    file: seq<Count>, lemNames: seq<Term>, terms: Word -> seq<Term>, texts: seq<seq<seq<Word>>>)
  {
    forall c | c in file :: CountsTermDocument(c, lemNames, terms, texts)
  }

  ghost predicate CountsTermDocument(
    c: Count, lemNames: seq<Term>, terms: Word -> seq<Term>, texts: seq<seq<seq<Word>>>)
  {
    && Spells(lemNames, c.key, WordsOf(lemNames, c.key))
    && c.weight == TermFrequency(terms, WordsOf(lemNames, c.key), texts)
  }

  /** Every count, weight, score and frequency in terms of the words of the raw documents and of
      the terms that the lemmatizer gives for them. */
  ghost predicate FromDocuments(
    f: Files, s: Settings, lower: seq<nat> -> Word, terms: Word -> seq<Term>, docs: seq<seq<Token>>,
    names: seq<Word>, lemNames: seq<Term>)
  {
    var raw1, raw2, texts := RawWindows(lower, 1, docs), RawWindows(lower, 2, docs), NonEmptyRuns(lower, docs);
    var raw3 := AdmitWords(lemNames, terms, f.bifiltered, RawWindows(lower, 3, docs));
    && CountsWords(AsCounts(f.uni), names, raw1)
    && CountsWords(f.bi, names, raw2)
    && CountsWords(f.tri, names, raw3)
    && IsTermPairFile(names, lemNames, terms, raw1, raw2, |f.lemids|, s.pairThreshold, f.extended2)
    && IsTermTripleFile(names, lemNames, terms, raw1, raw3, |f.lemids|, s.tripleThreshold, f.extended3)
    && CountsTermDocuments(f.bifreq, lemNames, terms, texts)
    && CountsTermDocuments(f.trifreq, lemNames, terms, texts)
    && forall m | m in f.lemfreq :: m.weight == TermFrequency(terms, [m.str], texts)
  }

  lemma GroupSpelled(
    names: seq<Word>, terms: Word -> seq<Term>, lems: LemTable, lemNames: seq<Term>,
    corpus: seq<Phrase>, n: nat, raw: seq<seq<Word>>, groups: seq<Group>, g: Gram)
    requires Dictionary(names, terms, lems, lemNames) && SpellsAll(names, AllWindows(n, corpus), raw)
    requires GroupsOccur(lems, corpus, n, groups) && HasGroup(groups, g)
    ensures Spells(lemNames, g, WordsOf(lemNames, g))
  {
    var i :| 0 <= i < |groups| && groups[i].lids == g;
    OccurringSpelled(names, terms, lems, lemNames, g, AllWindows(n, corpus), raw);
  }

  lemma DocumentsOfTerms(
    names: seq<Word>, terms: Word -> seq<Term>, lems: LemTable, lemNames: seq<Term>, corpus: seq<Phrase>,
    n: nat, raw: seq<seq<Word>>, texts: seq<seq<seq<Word>>>, groups: seq<Group>, file: seq<Count>)
    requires Dictionary(names, terms, lems, lemNames) && SpellsAll(names, AllWindows(n, corpus), raw)
    requires SpellsDocs(names, Divide(corpus).docs, texts) && GroupsOccur(lems, corpus, n, groups)
    requires CountsDocuments(file, lems, Divide(corpus).docs, groups)
    ensures CountsTermDocuments(file, lemNames, terms, texts)
  {
    forall c | c in file ensures CountsTermDocument(c, lemNames, terms, texts) {
      var i :| 0 <= i < |file| && file[i] == c;
      assert HasKey(file, c.key);
      GroupSpelled(names, terms, lems, lemNames, corpus, n, raw, groups, c.key);
      FrequencyOfTerms(names, terms, lems, lemNames, c.key, WordsOf(lemNames, c.key), Divide(corpus).docs, texts);
    }
  }

  lemma LemmaDocumentsOfTerms(
    names: seq<Word>, terms: Word -> seq<Term>, lems: LemTable, lemNames: seq<Term>, uni: seq<Unigram>,
    docs: seq<seq<Phrase>>, texts: seq<seq<seq<Word>>>, lemids: seq<LemId>, lemfreq: seq<LemFreq>, m: LemFreq)
    requires Dictionary(names, terms, lems, lemNames) && ListsNames(names, uni, lemNames, lemids)
    requires SpellsDocs(names, docs, texts) && CountsLemmas(lemfreq, lems, docs, lemids) && m in lemfreq
    ensures m.weight == TermFrequency(terms, [m.str], texts)
  {
    var i :| 0 <= i < |lemfreq| && lemfreq[i] == m;
    assert lemids[i] in lemids;
    assert Spells(lemNames, [m.id], [m.str]);
    FrequencyOfTerms(names, terms, lems, lemNames, [m.id], [m.str], docs, texts);
  }

  lemma PairsFromDocuments(
    f: Files, s: Settings, lower: seq<nat> -> Word, terms: Word -> seq<Term>, docs: seq<seq<Token>>,
    names: seq<Word>, lemNames: seq<Term>)
    requires Prepared(f.corpus, f.uni, f.lems, f.lemids) && HasPairs(f, s)
    requires Readable(f, lower, terms, docs, names, lemNames)
    ensures CountsWords(AsCounts(f.uni), names, RawWindows(lower, 1, docs))
    ensures CountsWords(f.bi, names, RawWindows(lower, 2, docs))
    ensures IsTermPairFile(names, lemNames, terms, RawWindows(lower, 1, docs), RawWindows(lower, 2, docs),
                           |f.lemids|, s.pairThreshold, f.extended2)
    ensures CountsTermDocuments(f.bifreq, lemNames, terms, NonEmptyRuns(lower, docs))
  {
    var raw1, raw2 := RawWindows(lower, 1, docs), RawWindows(lower, 2, docs);
    TableOfWords(AsCounts(f.uni), AllWindows(1, f.corpus), names, raw1);
    WindowsCountable(f.lems, 2, f.corpus);
    SmallIsExact(f.bi, AllWindows(2, f.corpus));
    TableOfWords(f.bi, AllWindows(2, f.corpus), names, raw2);
    PairFileOfTerms(names, terms, f.lems, lemNames, f.corpus, raw1, raw2, |f.lemids|, s.pairThreshold, f.extended2);
    PairsOccur(f.lems, f.corpus, |f.lemids|, s.pairThreshold, f.extended2);
    DocumentsOfTerms(names, terms, f.lems, lemNames, f.corpus, 2, raw2, NonEmptyRuns(lower, docs),
                     f.extended2, f.bifreq);
  }

  lemma SelectedSpelled(
    f: Files, s: Settings, lower: seq<nat> -> Word, terms: Word -> seq<Term>, docs: seq<seq<Token>>,
    names: seq<Word>, lemNames: seq<Term>)
    requires HasPairs(f, s) && Readable(f, lower, terms, docs, names, lemNames)
    ensures LidsSpelled(lemNames, f.bifiltered)
  {
    PairsOccur(f.lems, f.corpus, |f.lemids|, s.pairThreshold, f.extended2);
    forall grp | grp in f.bifiltered ensures Spells(lemNames, grp.lids, WordsOf(lemNames, grp.lids)) {
      SelectedAmong(f.bifiltered, f.lems, Divide(f.corpus).docs, s.pairDocs, s.pairScore, f.extended2, grp);
      var i :| 0 <= i < |f.extended2| && f.extended2[i] == grp;
      assert HasGroup(f.extended2, grp.lids);
      GroupSpelled(names, terms, f.lems, lemNames, f.corpus, 2, RawWindows(lower, 2, docs), f.extended2, grp.lids);
    }
  }

  lemma TriplesCountable(lems: LemTable, corpus: seq<Phrase>, kept: set<Gram>)
    requires KnownWords(lems, corpus) && |AllWindows(1, corpus)| < 0x1_0000_0000
    ensures Countable(lems, Triples(kept, corpus))
  {
    WindowsCountable(lems, 3, corpus);
    AdmitSubset(kept, AllWindows(3, corpus));
  }

  lemma TriplesFromDocuments(
    f: Files, s: Settings, kept: set<Gram>, lower: seq<nat> -> Word, terms: Word -> seq<Term>, docs: seq<seq<Token>>,
    names: seq<Word>, lemNames: seq<Term>)
    requires Extracted(f, s, kept) && Readable(f, lower, terms, docs, names, lemNames)
    ensures var raw3 := AdmitWords(lemNames, terms, f.bifiltered, RawWindows(lower, 3, docs));
            && CountsWords(f.tri, names, raw3)
            && IsTermTripleFile(names, lemNames, terms, RawWindows(lower, 1, docs), raw3,
                                |f.lemids|, s.tripleThreshold, f.extended3)
    ensures CountsTermDocuments(f.trifreq, lemNames, terms, NonEmptyRuns(lower, docs))
  {
    var raw1, raw := RawWindows(lower, 1, docs), RawWindows(lower, 3, docs);
    var raw3 := AdmitWords(lemNames, terms, f.bifiltered, raw);
    SelectedSpelled(f, s, lower, terms, docs, names, lemNames);
    AdmitSpelled(names, terms, f.lems, lemNames, f.corpus, f.bifiltered, kept, AllWindows(3, f.corpus), raw);
    TriplesCountable(f.lems, f.corpus, kept);
    SmallIsExact(f.tri, Triples(kept, f.corpus));
    TableOfWords(f.tri, Triples(kept, f.corpus), names, raw3);
    TripleFileOfTerms(names, terms, f.lems, lemNames, f.corpus, kept, raw1, raw3,
                      |f.lemids|, s.tripleThreshold, f.extended3);
    GroupTriplesOccur(f.lems, f.corpus, kept, |f.lemids|, s.tripleThreshold, f.extended3);
    DocumentsOfTerms(names, terms, f.lems, lemNames, f.corpus, 3, raw, NonEmptyRuns(lower, docs),
                     f.extended3, f.trifreq);
  }

  lemma FilesFromDocuments(
    f: Files, s: Settings, kept: set<Gram>, lower: seq<nat> -> Word, terms: Word -> seq<Term>, docs: seq<seq<Token>>,
    names: seq<Word>, lemNames: seq<Term>)
    requires Extracted(f, s, kept) && Readable(f, lower, terms, docs, names, lemNames)
    ensures FromDocuments(f, s, lower, terms, docs, names, lemNames)
  {
    PairsFromDocuments(f, s, lower, terms, docs, names, lemNames);
    TriplesFromDocuments(f, s, kept, lower, terms, docs, names, lemNames);
    forall m | m in f.lemfreq ensures m.weight == TermFrequency(terms, [m.str], NonEmptyRuns(lower, docs)) {
      LemmaDocumentsOfTerms(names, terms, f.lems, lemNames, f.uni, Divide(f.corpus).docs, NonEmptyRuns(lower, docs),
                            f.lemids, f.lemfreq, m);
    }
  }

  /** `main` of src/extract.cpp. If the documents have fewer than 2^32 words and the lemmatizer
      knows all of them, every stage delivers what the next relies on, no run-time check fires, and
      the files are exact. */
  method Extract(
    docs: seq<seq<Token>>, lower: seq<nat> -> Word, terms: Word -> seq<Term>,
    glob: seq<seq<Count>> -> seq<seq<Count>>, s: Settings)
    returns (f: Files, kept: set<Gram>, ghost names: seq<Word>, ghost lemNames: seq<Term>)
    requires s.chunkDocs > 0 && Shuffles(glob)
    requires |RawWindows(lower, 1, docs)| < 0x1_0000_0000
    requires forall w | w in Records(EncodeAll(lower, docs)) :: terms(w) != []
    ensures Extracted(f, s, kept)
    ensures f.total == |NonEmptyRuns(lower, docs)|
    ensures Readable(f, lower, terms, docs, names, lemNames)
    ensures FromDocuments(f, s, lower, terms, docs, names, lemNames)
  {
    var corpus, uni, lemids, lems, total;
    corpus, uni, lemids, lems, total, names, lemNames := Prepare(lower, terms, docs);
    RawDocuments(lower, docs, names, corpus);
    forall n: nat | n > 0 ensures SpellsAll(names, AllWindows(n, corpus), RawWindows(lower, n, docs)) {
      RawSize(lower, docs, names, corpus, n);
    }
    f := PairStages(Files(corpus, uni, total, lemids, lems, [], [], [], [], [], [], [], [], []), s, glob);
    f, kept := TripleStages(f, s, glob);
    FilesFromDocuments(f, s, kept, lower, terms, docs, names, lemNames);
  }
}
