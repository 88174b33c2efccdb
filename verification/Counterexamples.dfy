/** Inputs at which a property that one might expect does not hold. */
module Counterexamples {
  import opened Orders
  import opened Bags
  import opened Products
  import opened Streams
  import opened Corpus
  import opened Tables
  import opened Counting
  import opened Convert
  import opened Lemmer
  import opened Weights
  import opened Filters
  import opened DocFreq
  import opened DocFacts
  import opened Scores
  import opened Lemmatize
  import opened FreqStat
  import opened CorpusFacts
  import opened Preparation
  import opened Pipeline

  // Streams, saving, merging -------------------------------------------------------------------

  /** An input without outputs hides the outputs of the next one from a consumer. */
  lemma YieldStopsEarly()
    ensures var fn := (n: nat) => if n == 0 then [] else [n];
            Yield(fn, [0, 1]) == [] && FlatMap(fn, [0, 1]) == [1]
  {
    var fn := (n: nat) => if n == 0 then [] else [n];
    assert [0, 1][1..] == [1];
    assert FlatMap(fn, [1]) == [1];
  }

  /** A word without lemmas gets those of the next word, which is left without any. */
  lemma SavingShifts()
    ensures var lems: LemTable := [[], [5]];
            && LemsOf(lems, 1) == [] && LemsOf(lems, 2) == [5]
            && LemsOf(Saved(lems), 1) == [5] && LemsOf(Saved(lems), 2) == []
  {
    var lems: LemTable := [[], [5]];
    assert lems[..1] == [[]] && lems[..1][..0] == [];
    assert Saved(lems) == [[5]];
  }

  /** A pair that occurs 2^32 times in two files is merged into none. */
  lemma TotalWraps()
    ensures var s, t := [Count([1, 2], 0xFFFF_FFFF), Count([1, 2], 1)], [Count([1, 2], 0)];
            IsTotals(t, s) && Gather(Copies, s)[[1, 2]] == 0x1_0000_0000 && Gather(Copies, t)[[1, 2]] == 0
  {
    var s, t := [Count([1, 2], 0xFFFF_FFFF), Count([1, 2], 1)], [Count([1, 2], 0)];
    assert s[..1] == [s[0]] && s[..1][..0] == [] && t[..0] == [];
    assert Gather(Copies, [s[0]])[[1, 2]] == 0xFFFF_FFFF;
    assert Gather(Copies, s)[[1, 2]] == 0x1_0000_0000;
    assert U32(0x1_0000_0000) == 0;
    forall k ensures HasKey(t, k) <==> HasKey(s, k) {
      assert t[0].key == s[0].key == s[1].key == [1, 2];
    }
  }

  // A triple in more documents than its cases have occurrences ---------------------------------

  /** One document reads "A1 B1 C", two read "A2 B2 C", with words 1..5 for A1, B1, C, A2, B2. */
  const CORPUS: seq<Phrase> := [[1, 2, 3], [], [4, 5, 3], [], [4, 5, 3], []]

  /** A1 is one of the lemmas x and l, B1 of y and c; C is r, A2 is l, B2 is c. Lemmas 1..5 are x, l,
      y, c, r. */
  const LEMMAS: LemTable := [[1, 2], [3, 4], [5], [2], [4]]

  const TOKENS: seq<Gram> := [[1], [2], [3], [4], [5], [3], [4], [5], [3]]

  const PAIRS: seq<Gram> := [[1, 2], [2, 3], [4, 5], [5, 3], [4, 5], [5, 3]]

  const TRIPLES: seq<Gram> := [[1, 2, 3], [4, 5, 3], [4, 5, 3]]

  lemma WindowsOfThree(w: Phrase, a: nat, b: nat, c: nat)
    requires w == [a, b, c]
    ensures Windows(1, w) == [[a], [b], [c]]
    ensures Windows(2, w) == [[a, b], [b, c]]
    ensures Windows(3, w) == [[a, b, c]]
  {
    assert Window(1, w, 0) == [a] && Window(1, w, 1) == [b] && Window(1, w, 2) == [c];
    assert Window(2, w, 0) == [a, b] && Window(2, w, 1) == [b, c];
    assert Window(3, w, 0) == [a, b, c];
    assert WindowsTo(1, w, 1) == [[a]];
    assert WindowsTo(1, w, 2) == [[a], [b]];
    assert WindowsTo(1, w, 3) == [[a], [b], [c]];
    assert WindowsTo(2, w, 1) == [[a, b]];
    assert WindowsTo(2, w, 2) == [[a, b], [b, c]];
    assert WindowsTo(3, w, 1) == [[a, b, c]];
  }

  /** A document of one phrase, as `update` writes it. */
  function Written(w: Phrase): seq<Phrase> {
    [w] + [[]]
  }

  lemma OneDocument(n: nat, w: Phrase)
    requires n > 0
    ensures AllWindows(n, Written(w)) == Windows(n, w)
  {
    var none: seq<Phrase> := [];
    AllWindowsSnoc(n, none, w);
    assert none + [w] == [w];
    AllWindowsSnoc(n, [w], []);
  }

  lemma ThreeDocuments(n: nat, u: Phrase, v: Phrase)
    requires n > 0
    ensures AllWindows(n, Written(u) + Written(v) + Written(v)) == Windows(n, u) + Windows(n, v) + Windows(n, v)
  {
    AllWindowsConcat(n, Written(u) + Written(v), Written(v));
    AllWindowsConcat(n, Written(u), Written(v));
    OneDocument(n, u);
    OneDocument(n, v);
  }

  lemma DivideThree(u: Phrase, v: Phrase)
    requires u != [] && v != []
    ensures Divide(Written(u) + Written(v) + Written(v)) == Division([[u], [v], [v]], [])
  {
    var none: seq<Phrase> := [];
    DivideDocument(none, [u]);
    assert none + Written(u) == Written(u);
    DivideDocument(Written(u), [v]);
    DivideDocument(Written(u) + Written(v), [v]);
  }

  lemma CorpusWritten()
    ensures CORPUS == Written([1, 2, 3]) + Written([4, 5, 3]) + Written([4, 5, 3])
  {
  }

  lemma WindowsOfWritten(n: nat, u: Phrase, v: Phrase)
    requires n > 0 && u == [1, 2, 3] && v == [4, 5, 3]
    ensures AllWindows(n, CORPUS) == Windows(n, u) + Windows(n, v) + Windows(n, v)
  {
    CorpusWritten();
    ThreeDocuments(n, u, v);
  }

  lemma ExampleTokens()
    ensures AllWindows(1, CORPUS) == TOKENS
  {
    WindowsOfWritten(1, [1, 2, 3], [4, 5, 3]);
    WindowsOfThree([1, 2, 3], 1, 2, 3);
    WindowsOfThree([4, 5, 3], 4, 5, 3);
  }

  lemma ExamplePairs()
    ensures AllWindows(2, CORPUS) == PAIRS
  {
    WindowsOfWritten(2, [1, 2, 3], [4, 5, 3]);
    WindowsOfThree([1, 2, 3], 1, 2, 3);
    WindowsOfThree([4, 5, 3], 4, 5, 3);
  }

  lemma AllTriples()
    ensures AllWindows(3, CORPUS) == TRIPLES
  {
    WindowsOfWritten(3, [1, 2, 3], [4, 5, 3]);
    WindowsOfThree([1, 2, 3], 1, 2, 3);
    WindowsOfThree([4, 5, 3], 4, 5, 3);
  }

  lemma ExampleDivision()
    ensures Divide(CORPUS) == Division([[[1, 2, 3]], [[4, 5, 3]], [[4, 5, 3]]], [])
  {
    CorpusWritten();
    DivideThree([1, 2, 3], [4, 5, 3]);
  }

  /** What a lemma gets of a word: all, half or nothing. */
  function Part(l: nat, w: nat): real {
    var ls := LemsOf(LEMMAS, w);
    if l !in ls then 0.0 else if |ls| == 1 then 1.0 else 0.5
  }

  lemma ExampleShare(l: nat, w: nat)
    ensures EqualShare(LEMMAS, l, w) == Part(l, w)
  {
    var ls: seq<nat> := LemsOf(LEMMAS, w);
    if ls != [] {
      var bag: multiset<nat> := multiset(ls);
      FractionIsQuotient(bag[l], |ls|);
      assert ls == [1, 2] || ls == [3, 4] || ls == [5] || ls == [2] || ls == [4];
    }
  }

  lemma ShareOfOne(l: nat, w: nat)
    ensures GramShare(ShareOf(LEMMAS), [l], [w]) == Part(l, w)
  {
    ExampleShare(l, w);
    assert [l][1..] == [] && [w][1..] == [];
  }

  function Parts(l: nat, m: nat, v: nat, w: nat): real {
    Mul(Part(l, v), Part(m, w))
  }

  lemma ShareOfTwo(l: nat, m: nat, v: nat, w: nat)
    ensures GramShare(ShareOf(LEMMAS), [l, m], [v, w]) == Parts(l, m, v, w)
  {
    ExampleShare(l, v);
    ShareOfOne(m, w);
    assert [l, m][1..] == [m] && [v, w][1..] == [w];
  }

  lemma SumOfThree(f: Gram -> real, a: Gram, b: Gram, c: Gram)
    ensures Sum(f, [a, b, c]) == f(a) + f(b) + f(c)
  {
    var none: seq<Gram> := [];
    SumSnoc(f, none, a);
    SumSnoc(f, [a], b);
    SumSnoc(f, [a, b], c);
    assert none + [a] == [a] && [a] + [b] == [a, b] && [a, b] + [c] == [a, b, c];
  }

  lemma PairWeight(l: nat, m: nat)
    ensures CorpusWeight(LEMMAS, [l, m], CORPUS) ==
            (Parts(l, m, 1, 2) + Parts(l, m, 2, 3) + Parts(l, m, 4, 5))
            + (Parts(l, m, 5, 3) + Parts(l, m, 4, 5) + Parts(l, m, 5, 3))
  {
    ExamplePairs();
    var f := ShareIn(ShareOf(LEMMAS), [l, m]);
    assert PAIRS == [[1, 2], [2, 3], [4, 5]] + [[5, 3], [4, 5], [5, 3]];
    SumConcat(f, [[1, 2], [2, 3], [4, 5]], [[5, 3], [4, 5], [5, 3]]);
    SumOfThree(f, [1, 2], [2, 3], [4, 5]);
    SumOfThree(f, [5, 3], [4, 5], [5, 3]);
    ShareOfTwo(l, m, 1, 2);
    ShareOfTwo(l, m, 2, 3);
    ShareOfTwo(l, m, 4, 5);
    ShareOfTwo(l, m, 5, 3);
  }

  lemma LemmaWeight(l: nat)
    ensures CorpusWeight(LEMMAS, [l], CORPUS) ==
            (Part(l, 1) + Part(l, 2) + Part(l, 3)) + (Part(l, 4) + Part(l, 5) + Part(l, 3))
            + (Part(l, 4) + Part(l, 5) + Part(l, 3))
  {
    ExampleTokens();
    var f := ShareIn(ShareOf(LEMMAS), [l]);
    var u: seq<Gram>, v: seq<Gram> := [[1], [2], [3]], [[4], [5], [3]];
    assert TOKENS == u + v + v;
    SumConcat(f, u + v, v);
    SumConcat(f, u, v);
    SumOfThree(f, [1], [2], [3]);
    SumOfThree(f, [4], [5], [3]);
    ShareOfOne(l, 1);
    ShareOfOne(l, 2);
    ShareOfOne(l, 3);
    ShareOfOne(l, 4);
    ShareOfOne(l, 5);
  }

  lemma LemmaWeights()
    ensures CorpusWeight(LEMMAS, [1], CORPUS) == 0.5 && CorpusWeight(LEMMAS, [3], CORPUS) == 0.5
    ensures CorpusWeight(LEMMAS, [2], CORPUS) == 2.5 && CorpusWeight(LEMMAS, [4], CORPUS) == 2.5
    ensures CorpusWeight(LEMMAS, [5], CORPUS) == 3.0
  {
    LemmaWeight(1);
    LemmaWeight(2);
    LemmaWeight(3);
    LemmaWeight(4);
    LemmaWeight(5);
  }

  lemma WeightOfXY()
    ensures CorpusWeight(LEMMAS, [1, 3], CORPUS) == 0.25
  {
    PairWeight(1, 3);
    assert Part(1, 1) == 0.5 && Part(3, 2) == 0.5;
    assert Part(1, 2) == 0.0 && Part(1, 4) == 0.0 && Part(1, 5) == 0.0;
  }

  lemma WeightOfLC()
    ensures CorpusWeight(LEMMAS, [2, 4], CORPUS) == 2.25
  {
    PairWeight(2, 4);
    assert Part(2, 1) == 0.5 && Part(4, 2) == 0.5 && Part(2, 4) == 1.0 && Part(4, 5) == 1.0;
    assert Part(2, 2) == 0.0 && Part(2, 5) == 0.0;
  }

  lemma WeightOfCR()
    ensures CorpusWeight(LEMMAS, [4, 5], CORPUS) == 2.5
  {
    PairWeight(4, 5);
    assert Part(4, 2) == 0.5 && Part(5, 3) == 1.0 && Part(4, 5) == 1.0;
    assert Part(4, 1) == 0.0 && Part(4, 4) == 0.0;
  }

  lemma ScoreValue(l: nat, w: real, wi: real, wj: real, score: real)
    requires IsPairScore(l, w, 0.0, wi, wj, score)
    ensures l == 5 && w == 0.25 && wi == wj == 0.5 ==> score == 5.0
    ensures l == 5 && w == 2.25 && wi == wj == 2.5 ==> score < 2.5
    ensures l == 5 && w == 2.5 && wi == 2.5 && wj == 3.0 ==> score < 2.5
  {
  }

  /** x y scores 5, l c and c r less than 2.5. */
  lemma ExampleScores(grp: Group)
    requires IsPairGroup(LEMMAS, CORPUS, 5, 0.0, grp)
    ensures grp.lids == [1, 3] ==> grp.weight == 5.0
    ensures grp.lids == [2, 4] || grp.lids == [4, 5] ==> grp.weight < 2.5
  {
    LemmaWeights();
    WeightOfXY();
    WeightOfLC();
    WeightOfCR();
    var g := grp.lids;
    ScoreValue(5, CorpusWeight(LEMMAS, g, CORPUS), CorpusWeight(LEMMAS, [g[0]], CORPUS),
               CorpusWeight(LEMMAS, [g[1]], CORPUS), grp.weight);
  }

  // With thresholds of 0, and 2.5 for the score of pairs, only x y is selected ...

  ghost predicate IsExample(f: Files, s: Settings, kept: set<Gram>) {
    && Extracted(f, s, kept)
    && f.corpus == CORPUS && f.lems == LEMMAS && |f.lemids| == 5
    && s.pairThreshold == 0.0 && s.pairDocs == 0 && s.pairScore == 2.5 && s.tripleThreshold == 0.0
  }

  lemma CarriesPair(l: nat, m: nat, v: nat, w: nat)
    ensures Carries(LEMMAS, [l, m], [v, w]) <==> l in LemsOf(LEMMAS, v) && m in LemsOf(LEMMAS, w)
  {
    CarriesTwo(LEMMAS, [l, m], v, w);
  }

  /** Whatever "A2 B2" or "B2 C" carries is l c or c r. */
  lemma CarrierLemmas(g: Gram)
    requires Carries(LEMMAS, g, [4, 5]) || Carries(LEMMAS, g, [5, 3])
    ensures g == [2, 4] || g == [4, 5]
  {
    CarriesTwo(LEMMAS, g, 4, 5);
    CarriesTwo(LEMMAS, g, 5, 3);
    assert LemsOf(LEMMAS, 4) == [2] && LemsOf(LEMMAS, 5) == [4] && LemsOf(LEMMAS, 3) == [5];
    assert g == [g[0], g[1]];
  }

  lemma CarrierScores(grp: Group)
    requires IsPairGroup(LEMMAS, CORPUS, 5, 0.0, grp)
    requires Carries(LEMMAS, grp.lids, [4, 5]) || Carries(LEMMAS, grp.lids, [5, 3])
    ensures grp.weight < 2.5
  {
    CarrierLemmas(grp.lids);
    ExampleScores(grp);
  }

  lemma NotKept(kept: set<Gram>, docs: seq<seq<Phrase>>, groups: seq<Group>, selected: seq<Group>, p: Gram)
    requires KeptBy(kept, LEMMAS, CORPUS, selected) && IsPairFile(LEMMAS, CORPUS, 5, 0.0, groups)
    requires IsSelection(selected, LEMMAS, docs, 0, 2.5, groups) && (p == [4, 5] || p == [5, 3])
    ensures p !in kept
  {
    forall grp | grp in selected ensures !Carries(LEMMAS, grp.lids, p) {
      SelectedAmong(selected, LEMMAS, docs, 0, 2.5, groups, grp);
      if Carries(LEMMAS, grp.lids, p) {
        CarrierScores(grp);
      }
    }
    assert p in kept <==> IsKept(LEMMAS, CORPUS, selected, p);
  }

  lemma OccursXY()
    ensures Occurs(LEMMAS, [1, 3], AllWindows(2, CORPUS)) && Carries(LEMMAS, [1, 3], [1, 2])
    ensures [1, 2] in AllWindows(2, CORPUS) && Frequency(LEMMAS, [1, 3], Divide(CORPUS).docs) > 0
  {
    ExamplePairs();
    ExampleDivision();
    CarriesPair(1, 3, 1, 2);
    assert LemsOf(LEMMAS, 1) == [1, 2] && LemsOf(LEMMAS, 2) == [3, 4];
    assert PAIRS[0] == [1, 2];
    FrequencyFits(LEMMAS, [1, 3], CORPUS);
  }

  lemma SelectedXY(groups: seq<Group>, selected: seq<Group>)
    requires IsPairFile(LEMMAS, CORPUS, 5, 0.0, groups)
    requires IsSelection(selected, LEMMAS, Divide(CORPUS).docs, 0, 2.5, groups)
    ensures IsKept(LEMMAS, CORPUS, selected, [1, 2])
  {
    OccursXY();
    WeightOfXY();
    assert HasPair(LEMMAS, CORPUS, 0.0, [1, 3]);
    assert Meaning.HasLids(groups, [1, 3]);
    var grp :| grp in groups && grp.lids == [1, 3];
    ExampleScores(grp);
    assert multiset(selected)[grp] == Selected(LEMMAS, Divide(CORPUS).docs, 0, 2.5, groups, grp) > 0;
    assert grp in selected;
  }

  /** ... so the windows "A2 B2 C" are left out. */
  lemma ExampleTriples(kept: set<Gram>)
    requires [1, 2] in kept && [4, 5] !in kept && [5, 3] !in kept
    ensures Triples(kept, CORPUS) == [[1, 2, 3]]
  {
    AllTriples();
    assert [1, 2, 3][..2] == [1, 2] && [4, 5, 3][..2] == [4, 5] && [4, 5, 3][1..] == [5, 3];
    AdmitFirst(kept, [1, 2, 3], [4, 5, 3]);
  }

  lemma AdmitFirst(kept: set<Gram>, u: Gram, v: Gram)
    requires |u| == |v| == 3 && u[..2] in kept && v[..2] !in kept && v[1..] !in kept
    ensures Admit(kept, [u, v, v]) == [u]
  {
    var none: seq<Gram> := [];
    AdmitSnoc(kept, none, u);
    AdmitSnoc(kept, [u], v);
    AdmitSnoc(kept, [u, v], v);
    assert none + [u] == [u] && [u] + [v] == [u, v] && [u, v] + [v] == [u, v, v];
  }

  lemma CarriesLCR()
    ensures Carries(LEMMAS, [2, 4, 5], [1, 2, 3]) && Carries(LEMMAS, [2, 4, 5], [4, 5, 3])
  {
    CarriesThree(LEMMAS, [2, 4, 5], 1, 2, 3);
    CarriesThree(LEMMAS, [2, 4, 5], 4, 5, 3);
    assert LemsOf(LEMMAS, 1) == [1, 2] && LemsOf(LEMMAS, 2) == [3, 4] && LemsOf(LEMMAS, 3) == [5];
    assert LemsOf(LEMMAS, 4) == [2] && LemsOf(LEMMAS, 5) == [4];
  }

  lemma InAllThree(lems: LemTable, g: Gram, u: seq<Phrase>, v: seq<Phrase>)
    requires InDoc(lems, g, u) && InDoc(lems, g, v)
    ensures Frequency(lems, g, [u, v, v]) == 3
  {
    var none: seq<seq<Phrase>> := [];
    FrequencySnoc(lems, g, none, u);
    FrequencySnoc(lems, g, [u], v);
    FrequencySnoc(lems, g, [u, v], v);
    assert none + [u] == [u] && [u] + [v] == [u, v] && [u, v] + [v] == [u, v, v];
  }

  /** The triple l c r is in all three documents. */
  lemma DocumentsOfLCR()
    ensures Frequency(LEMMAS, [2, 4, 5], Divide(CORPUS).docs) == 3
  {
    ExampleDivision();
    CarriesLCR();
    InThreeWords(1, 2, 3);
    InThreeWords(4, 5, 3);
    InAllThree(LEMMAS, [2, 4, 5], [[1, 2, 3]], [[4, 5, 3]]);
  }

  lemma InThreeWords(a: nat, b: nat, c: nat)
    requires Carries(LEMMAS, [2, 4, 5], [a, b, c])
    ensures InDoc(LEMMAS, [2, 4, 5], [[a, b, c]])
  {
    var none: seq<Phrase> := [];
    WindowsOfThree([a, b, c], a, b, c);
    AllWindowsSnoc(3, none, [a, b, c]);
    assert none + [[a, b, c]] == [[a, b, c]];
    assert [a, b, c] in AllWindows(3, [[a, b, c]]);
  }

  lemma ReadStep(w: nat, wids: Gram, l: nat, g: Gram)
    requires multiset(LemsOf(LEMMAS, w))[l] == 1 && multiset(Product(LEMMAS, wids))[g] == 1
    ensures multiset(Product(LEMMAS, [w] + wids))[[l] + g] == 1
  {
    CrossCount(LemsOf(LEMMAS, w), Product(LEMMAS, wids), [l] + g);
    assert ([w] + wids)[1..] == wids && ([l] + g)[1..] == g;
  }

  /** "A1 B1 C" reads as l c r in one way. */
  lemma ReadOnce(w: Gram, g: Gram)
    requires w == [1, 2, 3] && g == [2, 4, 5]
    ensures multiset(Product(LEMMAS, w))[g] == 1
  {
    var rest, tail := w[1..], g[1..];
    assert w == [1] + rest && g == [2] + tail;
    ReadTail(rest, tail);
    assert LemsOf(LEMMAS, 1) == [1, 2];
    ReadStep(1, rest, 2, tail);
  }

  lemma ReadTail(w: Gram, g: Gram)
    requires w == [2, 3] && g == [4, 5]
    ensures multiset(Product(LEMMAS, w))[g] == 1
  {
    var rest, tail := w[1..], g[1..];
    assert w == [2] + rest && g == [4] + tail;
    ReadLast(rest, tail);
    assert LemsOf(LEMMAS, 2) == [3, 4];
    ReadStep(2, rest, 4, tail);
  }

  lemma ReadLast(w: Gram, g: Gram)
    requires w == [3] && g == [5]
    ensures multiset(Product(LEMMAS, w))[g] == 1
  {
    var none: Gram := [];
    assert w == [3] + none && g == [5] + none;
    assert LemsOf(LEMMAS, 3) == [5] && Product(LEMMAS, none) == [[]];
    ReadStep(3, none, 5, none);
  }

  lemma ExpectedOnce(w: Gram, g: Gram, c: Case)
    requires multiset(Product(LEMMAS, w))[g] == 1
    ensures Expected(LEMMAS, g, [w], c) == multiset([Case(w, 1)])[c]
  {
    assert c.wids != w ==> multiset([w])[c.wids] == 0;
  }

  lemma SingleCase(c: Case, cases: seq<Case>)
    requires forall d :: multiset(cases)[d] == multiset([c])[d]
    ensures cases == [c]
  {
    assert multiset(cases) == multiset([c]);
    assert |cases| == |multiset(cases)| == |multiset([c])| == 1;
    assert cases[0] in multiset(cases);
  }

  lemma CasesOfLCR(w: Gram, g: Gram, cases: seq<Case>)
    requires w == [1, 2, 3] && g == [2, 4, 5] && AreCases(LEMMAS, g, [w], cases)
    ensures cases == [Case(w, 1)]
  {
    ReadOnce(w, g);
    forall c ensures multiset(cases)[c] == multiset([Case(w, 1)])[c] {
      ExpectedOnce(w, g, c);
      assert multiset(cases)[c] == Expected(LEMMAS, g, [w], c);
    }
    SingleCase(Case(w, 1), cases);
  }

  /** l c r is written with the single case "A1 B1 C", which occurs once, and with 3 documents. */
  lemma MoreDocumentsThanCases(f: Files, s: Settings, kept: set<Gram>) returns (grp: Group)
    requires IsExample(f, s, kept)
    ensures grp in f.extended3 && grp.lids == [2, 4, 5] && grp.cases == [Case([1, 2, 3], 1)]
    ensures Count([2, 4, 5], 3) in f.trifreq
    ensures TripleWeight(LEMMAS, [2, 4, 5], kept, CORPUS) < CorpusWeight(LEMMAS, [2, 4, 5], CORPUS)
  {
    var docs, g: Gram := Divide(CORPUS).docs, [2, 4, 5];
    SelectedXY(f.extended2, f.bifiltered);
    NotKept(kept, docs, f.extended2, f.bifiltered, [4, 5]);
    NotKept(kept, docs, f.extended2, f.bifiltered, [5, 3]);
    ExampleTriples(kept);
    grp := GroupOfLCR(kept, f.extended3);
    CasesOfLCR([1, 2, 3], g, grp.cases);
    DocumentsOfLCR();
    EntryOfLCR(f.trifreq, f.extended3, grp);
    LeftOut(kept);
  }

  lemma GroupOfLCR(kept: set<Gram>, groups: seq<Group>) returns (grp: Group)
    requires IsTripleFile(LEMMAS, CORPUS, kept, 5, 0.0, groups) && Triples(kept, CORPUS) == [[1, 2, 3]]
    ensures grp in groups && grp.lids == [2, 4, 5] && AreCases(LEMMAS, [2, 4, 5], [[1, 2, 3]], grp.cases)
  {
    var g: Gram, w: Gram := [2, 4, 5], [1, 2, 3];
    CarriesLCR();
    assert w in [w] && Occurs(LEMMAS, g, [w]);
    OccurringWeighs(LEMMAS, g, [w]);
    assert HasTriple(LEMMAS, CORPUS, kept, 0.0, g);
    assert Meaning.HasLids(groups, g);
    grp :| grp in groups && grp.lids == g;
    assert IsTripleGroup(LEMMAS, CORPUS, kept, 5, 0.0, grp);
  }

  lemma EntryOfLCR(file: seq<Count>, groups: seq<Group>, grp: Group)
    requires CountsDocuments(file, LEMMAS, Divide(CORPUS).docs, groups) && grp in groups && grp.lids == [2, 4, 5]
    ensures Count([2, 4, 5], 3) in file
  {
    DocumentsOfLCR();
    var i :| 0 <= i < |groups| && groups[i] == grp;
    assert HasGroup(groups, [2, 4, 5]) && HasKey(file, [2, 4, 5]);
    var j :| 0 <= j < |file| && file[j].key == [2, 4, 5];
    assert file[j] in file && file[j] == Count([2, 4, 5], 3);
  }

  lemma LeftOut(kept: set<Gram>)
    requires [4, 5] !in kept && [5, 3] !in kept
    ensures TripleWeight(LEMMAS, [2, 4, 5], kept, CORPUS) < CorpusWeight(LEMMAS, [2, 4, 5], CORPUS)
  {
    var v: Gram := [4, 5, 3];
    AllTriples();
    CarriesLCR();
    assert TRIPLES[1] == v && v[..2] == [4, 5] && v[1..] == [5, 3];
    TripleWeightIff(LEMMAS, [2, 4, 5], kept, CORPUS);
  }

  // ... and the stages do come to this -----------------------------------------------------------

  const UNI: seq<Unigram> := [
    Unigram([1], 1, 1), Unigram([2], 2, 1), Unigram([3], 3, 3), Unigram([4], 4, 2), Unigram([5], 5, 2)]

  const LEMIDS: seq<LemId> := [LemId([1], 1), LemId([2], 2), LemId([3], 3), LemId([4], 4), LemId([5], 5)]

  lemma TokenBag()
    ensures multiset(TOKENS) == multiset{[1], [2], [3], [3], [3], [4], [4], [5], [5]}
  {
  }

  lemma ExampleTable()
    ensures AsCounts(UNI) ==
            [Count([1], 1), Count([2], 1), Count([3], 3), Count([4], 2), Count([5], 2)]
  {
    AsCountsAt(UNI);
  }

  lemma ExampleListed(t: seq<Count>, grams: seq<Gram>, k: Gram)
    requires t == [Count([1], 1), Count([2], 1), Count([3], 3), Count([4], 2), Count([5], 2)]
    requires multiset(grams) == multiset{[1], [2], [3], [3], [3], [4], [4], [5], [5]}
    ensures Listed(t, grams, k)
  {
    if k in multiset(grams) {
      assert t[0].key == k || t[1].key == k || t[2].key == k || t[3].key == k || t[4].key == k;
    }
    if HasKey(t, k) {
      var i :| 0 <= i < |t| && t[i].key == k;
      assert i == 0 || i == 1 || i == 2 || i == 3 || i == 4;
    }
  }

  lemma ExampleKeys(t: seq<Count>)
    requires t == [Count([1], 1), Count([2], 1), Count([3], 3), Count([4], 2), Count([5], 2)]
    ensures DistinctKeys(t)
  {
    forall i, j | 0 <= i < j < |t| ensures t[i].key != t[j].key {
      assert t[i].key[0] == i + 1 && t[j].key[0] == j + 1;
    }
  }

  lemma ExampleExact(t: seq<Count>, grams: seq<Gram>)
    requires t == [Count([1], 1), Count([2], 1), Count([3], 3), Count([4], 2), Count([5], 2)]
    requires multiset(grams) == multiset{[1], [2], [3], [3], [3], [4], [4], [5], [5]}
    ensures Exact(t, grams)
  {
    ExampleKeys(t);
    forall k ensures Listed(t, grams, k) {
      ExampleListed(t, grams, k);
    }
    forall c | c in t ensures c.weight == multiset(grams)[c.key] {
      ExampleEntry(t, grams, c);
    }
  }

  lemma ExampleEntry(t: seq<Count>, grams: seq<Gram>, c: Count)
    requires t == [Count([1], 1), Count([2], 1), Count([3], 3), Count([4], 2), Count([5], 2)]
    requires multiset(grams) == multiset{[1], [2], [3], [3], [3], [4], [4], [5], [5]}
    requires c in t
    ensures c.weight == multiset(grams)[c.key]
  {
  }

  lemma ExampleCounts()
    ensures Exact(AsCounts(UNI), AllWindows(1, CORPUS))
  {
    ExampleTokens();
    ExampleTable();
    TokenBag();
    ExampleExact(AsCounts(UNI), TOKENS);
  }

  lemma ExampleLemma(l: nat)
    ensures IsLemma(LEMMAS, l) <==> 1 <= l <= 5
    ensures IsLemma(LEMMAS, l) ==> Occurs(LEMMAS, [l], AllWindows(1, CORPUS))
  {
    ExampleTokens();
    if 1 <= l <= 5 {
      var w: nat := if l <= 2 then 1 else if l <= 4 then 2 else 3;
      LemmaOfWord(l, w);
      CarriesOne(LEMMAS, l, w);
      assert TOKENS[w - 1] == [w];
    }
    if IsLemma(LEMMAS, l) {
      var w: nat :| l in LemsOf(LEMMAS, w);
      EntryInRange(w, l);
    }
  }

  lemma LemmaOfWord(l: nat, w: nat)
    requires 1 <= l <= 5 && w == if l <= 2 then 1 else if l <= 4 then 2 else 3
    ensures l in LemsOf(LEMMAS, w)
  {
    assert LemsOf(LEMMAS, 1) == [1, 2] && LemsOf(LEMMAS, 2) == [3, 4] && LemsOf(LEMMAS, 3) == [5];
  }

  lemma EntryInRange(w: nat, l: nat)
    requires l in LemsOf(LEMMAS, w)
    ensures 1 <= l <= 5
  {
    assert w == 1 || w == 2 || w == 3 || w == 4 || w == 5;
  }

  lemma ExampleKnown()
    ensures KnownWords(LEMMAS, CORPUS)
  {
    forall j | 0 <= j < |CORPUS| ensures KnownPhrase(LEMMAS, CORPUS[j]) {
      forall k | 0 <= k < |CORPUS[j]| ensures LemsOf(LEMMAS, CORPUS[j][k]) != [] {
        assert CORPUS[j] == [1, 2, 3] || CORPUS[j] == [4, 5, 3];
      }
    }
  }

  lemma IdListed(l: nat)
    requires 1 <= l <= 5
    ensures exists i :: 0 <= i < |LEMIDS| && LEMIDS[i].id == l
  {
    assert LEMIDS[l - 1].id == l;
  }

  lemma ListedInRange(m: LemId)
    requires m in LEMIDS
    ensures 1 <= m.id <= 5
  {
  }

  lemma ExampleLemmas()
    ensures ListsLemmas(LEMIDS, LEMMAS) && forall m | m in LEMIDS :: IsLemma(LEMMAS, m.id)
  {
    assert ListsLemmas(LEMIDS, LEMMAS) by {
      forall l | IsLemma(LEMMAS, l) ensures exists i :: 0 <= i < |LEMIDS| && LEMIDS[i].id == l {
        ExampleLemma(l);
        IdListed(l);
      }
    }
    forall m | m in LEMIDS ensures IsLemma(LEMMAS, m.id) {
      ListedInRange(m);
      ExampleLemma(m.id);
    }
  }

  lemma ExamplePrepared()
    ensures Prepared(CORPUS, UNI, LEMMAS, LEMIDS)
  {
    ExampleDivision();
    ExampleCounts();
    ExampleKnown();
    ExampleLemmas();
    assert |AllWindows(1, CORPUS)| < 0x1_0000_0000 by {
      ExampleTokens();
    }
    forall l | IsLemma(LEMMAS, l) ensures Occurs(LEMMAS, [l], AllWindows(1, CORPUS)) {
      ExampleLemma(l);
    }
  }

  /** The stages, from the files of `convert` and `lemmatize` on, write this triple. */
  method RunExample(glob: seq<seq<Count>> -> seq<seq<Count>>, chunkDocs: nat, maxExtended: nat, maxGroups: nat)
    returns (f: Files, s: Settings, kept: set<Gram>)
    requires chunkDocs > 0 && Shuffles(glob)
    ensures IsExample(f, s, kept) && Count([2, 4, 5], 3) in f.trifreq
    ensures exists grp :: grp in f.extended3 && grp.lids == [2, 4, 5] && grp.cases == [Case([1, 2, 3], 1)]
  {
    s := Settings(chunkDocs, maxExtended, maxGroups, 0.0, 0, 2.5, 0.0, 0, 0.0);
    ExamplePrepared();
    f := PairStages(Files(CORPUS, UNI, 3, LEMIDS, LEMMAS, [], [], [], [], [], [], [], [], []), s, glob);
    f, kept := TripleStages(f, s, glob);
    ghost var grp := MoreDocumentsThanCases(f, s, kept);
  }

  // The documented score ----------------------------------------------------------------------------

  lemma OneShare(lems: LemTable, l: nat, w: nat)
    requires LemsOf(lems, w) == [l]
    ensures EqualShare(lems, l, w) == 1.0
  {
    FractionIsQuotient(1, 1);
  }

  lemma NoShare(lems: LemTable, l: nat, w: nat)
    requires l !in LemsOf(lems, w)
    ensures EqualShare(lems, l, w) == 0.0
  {
    var ls: seq<nat> := LemsOf(lems, w);
    if ls != [] {
      FractionIsQuotient(0, |ls|);
    }
  }

  lemma TwoWords(lems: LemTable, corpus: seq<Phrase>)
    requires lems == [[1], [2]] && corpus == [[1, 2], []]
    ensures AllWindows(1, corpus) == [[1], [2]] && AllWindows(2, corpus) == [[1, 2]]
    ensures CorpusWeight(lems, [1, 2], corpus) == 1.0
    ensures CorpusWeight(lems, [1], corpus) == 1.0 && CorpusWeight(lems, [2], corpus) == 1.0
  {
    var w: Phrase := [1, 2];
    OneDocument(1, w);
    OneDocument(2, w);
    assert corpus == Written(w);
    assert Window(1, w, 0) == [1] && Window(1, w, 1) == [2] && Window(2, w, 0) == w;
    assert WindowsTo(1, w, 1) == [[1]] && WindowsTo(1, w, 2) == [[1], [2]] && WindowsTo(2, w, 1) == [w];
    OneShare(lems, 1, 1);
    OneShare(lems, 2, 2);
    NoShare(lems, 1, 2);
    NoShare(lems, 2, 1);
    TwoSums(ShareIn(ShareOf(lems), [1]));
    TwoSums(ShareIn(ShareOf(lems), [2]));
    assert [1][1..] == [] && [2][1..] == [] && w[1..] == [2];
    SumSnoc(ShareIn(ShareOf(lems), w), [], w);
    assert [] + [w] == [w];
  }

  lemma TwoSums(f: Gram -> real)
    ensures Sum(f, [[1], [2]]) == f([1]) + f([2])
  {
    SumSnoc(f, [], [1]);
    SumSnoc(f, [[1]], [2]);
    assert [] + [[1]] == [[1]] && [[1]] + [[2]] == [[1], [2]];
  }

  /** With two lemmas the written score is twice the documented one: here 2 instead of 1. */
  lemma DocumentedScoreDiffers(lems: LemTable, corpus: seq<Phrase>, groups: seq<Group>)
    requires lems == [[1], [2]] && corpus == [[1, 2], []] && IsPairFile(lems, corpus, 2, 0.0, groups)
    ensures exists grp :: grp in groups && grp.lids == [1, 2] && grp.weight == 2.0
    ensures PairFormula(1.0, CorpusWeight(lems, [1, 2], corpus), 1.0, 1.0) == 1.0
  {
    TwoWords(lems, corpus);
    CarriesTwo(lems, [1, 2], 1, 2);
    assert [1, 2] in AllWindows(2, corpus) && HasPair(lems, corpus, 0.0, [1, 2]);
    assert Meaning.HasLids(groups, [1, 2]);
    var grp :| grp in groups && grp.lids == [1, 2];
    DocumentedPairScore(2, 1.0, 0.0, 1.0, 1.0, grp.weight);
  }
}
