/** From the numbers in the files back to the words of the documents and the terms of the
    lemmatizer: counts per word n-gram, weights and document counts per n-gram of terms. */
module RawFacts {
  import opened Orders
  import opened Bags
  import opened Products
  import opened Corpus
  import opened Tables
  import opened Counting
  import opened Convert
  import opened Lemmer
  import opened Weights
  import opened Meaning
  import opened Filters
  import opened DocFreq
  import opened Scores
  import opened Lemmatize
  import opened CorpusFacts
  import opened Preparation

  // Counts ------------------------------------------------------------------------------------

  /** What the numbers of `g` stand for. */
  ghost function WordsOf(names: seq<Word>, g: Gram): seq<Word> {
    seq(|g|, i requires 0 <= i < |g| => if 1 <= g[i] <= |names| then names[g[i] - 1] else [])
  }

  lemma SpellsWordsOf(names: seq<Word>, g: Gram, ws: seq<Word>)
    requires Spells(names, g, ws)
    ensures WordsOf(names, g) == ws
  {
  }

  /** Numbers without repetition: different n-grams stand for different words. */
  lemma SameSpelling(names: seq<Word>, g: Gram, h: Gram, ws: seq<Word>, vs: seq<Word>)
    requires Distinct(names) && Spells(names, g, ws) && Spells(names, h, vs)
    ensures g == h <==> ws == vs
  {
    if ws == vs {
      forall i | 0 <= i < |g| ensures g[i] == h[i] {
        assert names[g[i] - 1] == names[h[i] - 1];
      }
    }
    SpellsWordsOf(names, g, ws);
    SpellsWordsOf(names, h, vs);
  }

  lemma {:induction false} SpelledCopies(
    names: seq<Word>, grams: seq<Gram>, raw: seq<seq<Word>>, g: Gram, ws: seq<Word>)
    requires Distinct(names) && SpellsAll(names, grams, raw) && Spells(names, g, ws)
    ensures multiset(grams)[g] == multiset(raw)[ws]
  {
    if grams != [] {
      var n := |grams| - 1;
      SpellsFront(names, grams, raw);
      SpelledCopies(names, grams[..n], raw[..n], g, ws);
      LastCounts(grams, g);
      LastCounts(raw, ws);
      SameSpelling(names, g, grams[n], ws, raw[n]);
    }
  }

  lemma SpelledMember(names: seq<Word>, grams: seq<Gram>, raw: seq<seq<Word>>, g: Gram)
    requires SpellsAll(names, grams, raw) && g in grams
    ensures Spells(names, g, WordsOf(names, g)) && WordsOf(names, g) in raw
  {
    var i :| 0 <= i < |grams| && grams[i] == g;
    assert Spells(names, grams[i], raw[i]);
    SpellsWordsOf(names, g, raw[i]);
  }

  ghost predicate HasWords(t: seq<Count>, names: seq<Word>, ws: seq<Word>) {
    exists c :: c in t && WordsOf(names, c.key) == ws
  }

  ghost predicate CountsOne(names: seq<Word>, raw: seq<seq<Word>>, c: Count) {
    Spells(names, c.key, WordsOf(names, c.key)) && c.weight == multiset(raw)[WordsOf(names, c.key)] > 0
  }

  /** The table counts the word n-grams `raw`: every entry has the number of occurrences of what
      it stands for, and everything that occurs is there. */
  ghost predicate CountsWords(t: seq<Count>, names: seq<Word>, raw: seq<seq<Word>>) {
    (forall c | c in t :: CountsOne(names, raw, c)) && (forall ws | ws in raw :: HasWords(t, names, ws))
  }

  lemma EntryCounts(t: seq<Count>, grams: seq<Gram>, names: seq<Word>, raw: seq<seq<Word>>, c: Count)
    requires Exact(t, grams) && Distinct(names) && SpellsAll(names, grams, raw) && c in t
    ensures CountsOne(names, raw, c)
  {
    var i :| 0 <= i < |t| && t[i] == c;
    assert HasKey(t, c.key) && Listed(t, grams, c.key);
    SpelledMember(names, grams, raw, c.key);
    SpelledCopies(names, grams, raw, c.key, WordsOf(names, c.key));
  }

  /** uni.bin and bi.bin count the words and the adjacent words of the raw documents. */
  lemma TableOfWords(t: seq<Count>, grams: seq<Gram>, names: seq<Word>, raw: seq<seq<Word>>)
    requires Exact(t, grams) && Distinct(names) && SpellsAll(names, grams, raw)
    ensures CountsWords(t, names, raw)
  {
    forall c | c in t ensures CountsOne(names, raw, c) {
      EntryCounts(t, grams, names, raw, c);
    }
    forall ws | ws in raw ensures HasWords(t, names, ws) {
      var i :| 0 <= i < |raw| && raw[i] == ws;
      assert Spells(names, grams[i], raw[i]);
      SpellsWordsOf(names, grams[i], ws);
      assert grams[i] in multiset(grams) && Listed(t, grams, grams[i]);
      var j :| 0 <= j < |t| && t[j].key == grams[i];
      assert t[j] in t;
    }
  }

  // Shares of terms ----------------------------------------------------------------------------

  /** The part of the word `w` that the term `t` gets: homonyms share equally. */
  ghost function TermShare(terms: Word -> seq<Term>, t: Term, w: Word): real {
    if terms(w) == [] then 0.0 else Fraction(multiset(terms(w))[t], |terms(w)|)
  }

  ghost function TermsShare(terms: Word -> seq<Term>, ts: seq<Term>, ws: seq<Word>): real {
    if |ts| != |ws| then 0.0
    else if ts == [] then 1.0
    else Mul(TermShare(terms, ts[0], ws[0]), TermsShare(terms, ts[1..], ws[1..]))
  }

  lemma TermShareIs(terms: Word -> seq<Term>, t: Term, w: Word)
    requires terms(w) != []
    ensures TermShare(terms, t, w) == multiset(terms(w))[t] as real / |terms(w)| as real
  {
    FractionIsQuotient(multiset(terms(w))[t], |terms(w)|);
  }

  /** A term gets its part of the word's terms, and a pair the product of the two parts. */
  lemma PairShare(terms: Word -> seq<Term>, t: Term, t': Term, v: Word, w: Word)
    requires terms(v) != [] && terms(w) != []
    ensures TermsShare(terms, [t], [v]) == multiset(terms(v))[t] as real / |terms(v)| as real
    ensures TermsShare(terms, [t, t'], [v, w]) ==
            (multiset(terms(v))[t] as real / |terms(v)| as real) * (multiset(terms(w))[t'] as real / |terms(w)| as real)
  {
    OneShare(terms, t, v);
    OneShare(terms, t', w);
    TermShareIs(terms, t, v);
    TermShareIs(terms, t', w);
    assert [t, t'][1..] == [t'] && [v, w][1..] == [w];
  }

  lemma OneShare(terms: Word -> seq<Term>, t: Term, w: Word)
    ensures TermsShare(terms, [t], [w]) == TermShare(terms, t, w)
  {
    assert [t][1..] == [] && [w][1..] == [];
  }

  ghost function TermsShareIn(terms: Word -> seq<Term>, ts: seq<Term>): seq<Word> -> real {
    (ws: seq<Word>) => TermsShare(terms, ts, ws)
  }

  /** The joint weight of terms over word n-grams, straight from the lemmatizer. */
  ghost function TermWeight(terms: Word -> seq<Term>, ts: seq<Term>, raw: seq<seq<Word>>): real {
    Sum(TermsShareIn(terms, ts), raw)
  }

  /** Each of the terms is among those of its word. */
  ghost predicate TermsCarried(terms: Word -> seq<Term>, ts: seq<Term>, ws: seq<Word>) {
    |ts| == |ws| && forall i | 0 <= i < |ts| :: ts[i] in terms(ws[i])
  }

  ghost predicate TermsOccur(terms: Word -> seq<Term>, ts: seq<Term>, raw: seq<seq<Word>>) {
    exists ws :: ws in raw && TermsCarried(terms, ts, ws)
  }

  /** The number of documents in which the terms are adjacent. */
  ghost function TermFrequency(terms: Word -> seq<Term>, ts: seq<Term>, texts: seq<seq<seq<Word>>>): nat {
    if texts == [] then 0
    else
      TermFrequency(terms, ts, texts[..|texts| - 1])
      + if TermsOccur(terms, ts, AllWindows(|ts|, texts[|texts| - 1])) then 1 else 0
  }

  lemma ShareOfTerm(
    names: seq<Word>, terms: Word -> seq<Term>, lems: LemTable, lemNames: seq<Term>, l: nat, w: nat)
    requires Dictionary(names, terms, lems, lemNames) && 1 <= l <= |lemNames| && 1 <= w <= |names|
    ensures EqualShare(lems, l, w) == TermShare(terms, lemNames[l - 1], names[w - 1])
    ensures l in LemsOf(lems, w) <==> lemNames[l - 1] in terms(names[w - 1])
  {
    assert LemmasSpelled(names, terms, lems, lemNames, w);
    var ls, ts := LemsOf(lems, w), terms(names[w - 1]);
    SpelledCount(lemNames, ls, ts, l);
    assert l in ls <==> l in multiset(ls);
    assert lemNames[l - 1] in ts <==> lemNames[l - 1] in multiset(ts);
  }

  lemma {:induction false} ShareOfTerms(
    names: seq<Word>, terms: Word -> seq<Term>, lems: LemTable, lemNames: seq<Term>,
    lids: Gram, ts: seq<Term>, wids: Gram, ws: seq<Word>)
    requires Dictionary(names, terms, lems, lemNames) && Spells(lemNames, lids, ts) && Spells(names, wids, ws)
    ensures GramShare(ShareOf(lems), lids, wids) == TermsShare(terms, ts, ws)
  {
    if |lids| == |wids| && lids != [] {
      ShareOfTerm(names, terms, lems, lemNames, lids[0], wids[0]);
      ShareOfTerms(names, terms, lems, lemNames, lids[1..], ts[1..], wids[1..], ws[1..]);
    }
  }

  lemma CarriedTerms(
    names: seq<Word>, terms: Word -> seq<Term>, lems: LemTable, lemNames: seq<Term>,
    lids: Gram, ts: seq<Term>, wids: Gram, ws: seq<Word>)
    requires Dictionary(names, terms, lems, lemNames) && Spells(lemNames, lids, ts) && Spells(names, wids, ws)
    ensures Carries(lems, lids, wids) <==> TermsCarried(terms, ts, ws)
  {
    if |lids| == |wids| {
      forall i | 0 <= i < |lids| ensures lids[i] in LemsOf(lems, wids[i]) <==> ts[i] in terms(ws[i]) {
        ShareOfTerm(names, terms, lems, lemNames, lids[i], wids[i]);
      }
    }
  }

  /** Summing shares over numbered n-grams is summing shares of terms over word n-grams. */
  lemma {:induction false} WeightOfTerms(
    names: seq<Word>, terms: Word -> seq<Term>, lems: LemTable, lemNames: seq<Term>,
    lids: Gram, ts: seq<Term>, grams: seq<Gram>, raw: seq<seq<Word>>)
    requires Dictionary(names, terms, lems, lemNames)
    requires Spells(lemNames, lids, ts) && SpellsAll(names, grams, raw)
    ensures JointIn(ShareOf(lems), lids, grams) == TermWeight(terms, ts, raw)
  {
    if grams != [] {
      var n := |grams| - 1;
      SpellsFront(names, grams, raw);
      WeightOfTerms(names, terms, lems, lemNames, lids, ts, grams[..n], raw[..n]);
      ShareOfTerms(names, terms, lems, lemNames, lids, ts, grams[n], raw[n]);
    }
  }

  lemma TermsOccurIff(
    names: seq<Word>, terms: Word -> seq<Term>, lems: LemTable, lemNames: seq<Term>,
    lids: Gram, ts: seq<Term>, grams: seq<Gram>, raw: seq<seq<Word>>)
    requires Dictionary(names, terms, lems, lemNames)
    requires Spells(lemNames, lids, ts) && SpellsAll(names, grams, raw)
    ensures Occurs(lems, lids, grams) <==> TermsOccur(terms, ts, raw)
  {
    forall i | 0 <= i < |grams| ensures Carries(lems, lids, grams[i]) <==> TermsCarried(terms, ts, raw[i]) {
      assert Spells(names, grams[i], raw[i]);
      CarriedTerms(names, terms, lems, lemNames, lids, ts, grams[i], raw[i]);
    }
    if Occurs(lems, lids, grams) {
      var w :| w in grams && Carries(lems, lids, w);
      var i :| 0 <= i < |grams| && grams[i] == w;
      assert raw[i] in raw;
    }
    if TermsOccur(terms, ts, raw) {
      var ws :| ws in raw && TermsCarried(terms, ts, ws);
      var i :| 0 <= i < |raw| && raw[i] == ws;
      assert grams[i] in grams;
    }
  }

  /** Document counts of numbered readings are document counts of terms. */
  lemma {:induction false} FrequencyOfTerms(
    names: seq<Word>, terms: Word -> seq<Term>, lems: LemTable, lemNames: seq<Term>,
    lids: Gram, ts: seq<Term>, docs: seq<seq<Phrase>>, texts: seq<seq<seq<Word>>>)
    requires Dictionary(names, terms, lems, lemNames)
    requires Spells(lemNames, lids, ts) && SpellsDocs(names, docs, texts)
    ensures Frequency(lems, lids, docs) == TermFrequency(terms, ts, texts)
  {
    if docs != [] {
      var n := |docs| - 1;
      forall i | 0 <= i < n ensures SpellsAll(names, docs[..n][i], texts[..n][i]) {
        assert SpellsAll(names, docs[i], texts[i]);
      }
      FrequencyOfTerms(names, terms, lems, lemNames, lids, ts, docs[..n], texts[..n]);
      assert SpellsAll(names, docs[n], texts[n]);
      WindowsSpelled(names, |lids|, docs[n], texts[n]);
      TermsOccurIff(names, terms, lems, lemNames, lids, ts, AllWindows(|lids|, docs[n]), AllWindows(|ts|, texts[n]));
    }
  }

  /** Terms that occur have numbers. */
  lemma {:induction false} NumbersOfTerms(
    names: seq<Word>, terms: Word -> seq<Term>, lems: LemTable, lemNames: seq<Term>,
    ts: seq<Term>, wids: Gram, ws: seq<Word>) returns (lids: Gram)
    requires Dictionary(names, terms, lems, lemNames) && Spells(names, wids, ws) && TermsCarried(terms, ts, ws)
    ensures Spells(lemNames, lids, ts)
  {
    lids := [];
    if ts != [] {
      var n := |ts| - 1;
      var front := NumbersOfTerms(names, terms, lems, lemNames, ts[..n], wids[..n], ws[..n]);
      assert LemmasSpelled(names, terms, lems, lemNames, wids[n]);
      var k :| 0 <= k < |terms(ws[n])| && terms(ws[n])[k] == ts[n];
      lids := front + [LemsOf(lems, wids[n])[k]];
    }
  }

  // Groups -----------------------------------------------------------------------------------------

  ghost predicate CaseOfTerms(
    names: seq<Word>, terms: Word -> seq<Term>, ts: seq<Term>, raw: seq<seq<Word>>, c: Case)
  {
    TermsCarried(terms, ts, WordsOf(names, c.wids)) && c.count == multiset(raw)[WordsOf(names, c.wids)] > 0
  }

  ghost predicate HasCase(names: seq<Word>, cases: seq<Case>, ws: seq<Word>) {
    exists c :: c in cases && WordsOf(names, c.wids) == ws
  }

  /** The cases are the word n-grams with these terms, with their numbers of occurrences. */
  ghost predicate CasesOfTerms(
    names: seq<Word>, terms: Word -> seq<Term>, ts: seq<Term>, raw: seq<seq<Word>>, cases: seq<Case>)
  {
    && (forall c | c in cases :: CaseOfTerms(names, terms, ts, raw, c))
    && (forall ws | ws in raw && TermsCarried(terms, ts, ws) :: HasCase(names, cases, ws))
  }

  ghost predicate HasTerms(groups: seq<Group>, lemNames: seq<Term>, ts: seq<Term>) {
    exists grp :: grp in groups && Spells(lemNames, grp.lids, ts)
  }

  /** `n` terms that occur and weigh more than the threshold. */
  ghost predicate TermsPass(terms: Word -> seq<Term>, n: nat, ts: seq<Term>, raw: seq<seq<Word>>, t: real) {
    |ts| == n && TermsOccur(terms, ts, raw) && TermWeight(terms, ts, raw) > t
  }

  /** The weight of one term over the words `raw`. */
  ghost function OneWeight(terms: Word -> seq<Term>, t: Term, raw: seq<seq<Word>>): real {
    TermWeight(terms, [t], raw)
  }

  ghost predicate IsTermPair(
    names: seq<Word>, lemNames: seq<Term>, terms: Word -> seq<Term>, raw1: seq<seq<Word>>, raw2: seq<seq<Word>>,
    l: nat, t: real, grp: Group)
  {
    var ts := WordsOf(lemNames, grp.lids);
    && |ts| == 2 && Spells(lemNames, grp.lids, ts)
    && IsPairScore(l, TermWeight(terms, ts, raw2), t,
                   OneWeight(terms, ts[0], raw1), OneWeight(terms, ts[1], raw1), grp.weight)
    && CasesOfTerms(names, terms, ts, raw2, grp.cases)
  }

  ghost predicate IsTermTriple(
    names: seq<Word>, lemNames: seq<Term>, terms: Word -> seq<Term>, raw1: seq<seq<Word>>, raw3: seq<seq<Word>>,
    l: nat, t: real, grp: Group)
  {
    var ts := WordsOf(lemNames, grp.lids);
    && |ts| == 3 && Spells(lemNames, grp.lids, ts)
    && IsTripleScore(l, TermWeight(terms, ts, raw3), t, OneWeight(terms, ts[0], raw1), OneWeight(terms, ts[1], raw1),
                     OneWeight(terms, ts[2], raw1), grp.weight)
    && CasesOfTerms(names, terms, ts, raw3, grp.cases)
  }

  /** extended2.bin without any numbers: the pairs of terms that are adjacent somewhere and weigh
      more than the threshold, with their scores and cases. */
  ghost predicate IsTermPairFile(
    names: seq<Word>, lemNames: seq<Term>, terms: Word -> seq<Term>, raw1: seq<seq<Word>>, raw2: seq<seq<Word>>,
    l: nat, t: real, groups: seq<Group>)
  {
    && (forall ts :: HasTerms(groups, lemNames, ts) <==> TermsPass(terms, 2, ts, raw2, t))
    && (forall grp | grp in groups :: IsTermPair(names, lemNames, terms, raw1, raw2, l, t, grp))
  }

  /** extended3.bin likewise, over the admitted word triples `raw3`. */
  ghost predicate IsTermTripleFile(
    names: seq<Word>, lemNames: seq<Term>, terms: Word -> seq<Term>, raw1: seq<seq<Word>>, raw3: seq<seq<Word>>,
    l: nat, t: real, groups: seq<Group>)
  {
    && (forall ts :: HasTerms(groups, lemNames, ts) <==> TermsPass(terms, 3, ts, raw3, t))
    && (forall grp | grp in groups :: IsTermTriple(names, lemNames, terms, raw1, raw3, l, t, grp))
  }

  lemma ReadingSpelled(
    names: seq<Word>, terms: Word -> seq<Term>, lems: LemTable, lemNames: seq<Term>,
    lids: Gram, wids: Gram, ws: seq<Word>)
    requires Dictionary(names, terms, lems, lemNames) && Spells(names, wids, ws) && Carries(lems, lids, wids)
    ensures Spells(lemNames, lids, WordsOf(lemNames, lids))
  {
    forall i | 0 <= i < |lids| ensures 1 <= lids[i] <= |lemNames| {
      assert LemmasSpelled(names, terms, lems, lemNames, wids[i]);
      var k :| 0 <= k < |LemsOf(lems, wids[i])| && LemsOf(lems, wids[i])[k] == lids[i];
    }
  }

  lemma OccurringSpelled(
    names: seq<Word>, terms: Word -> seq<Term>, lems: LemTable, lemNames: seq<Term>,
    lids: Gram, grams: seq<Gram>, raw: seq<seq<Word>>)
    requires Dictionary(names, terms, lems, lemNames) && SpellsAll(names, grams, raw) && Occurs(lems, lids, grams)
    ensures Spells(lemNames, lids, WordsOf(lemNames, lids))
  {
    var w :| w in grams && Carries(lems, lids, w);
    var i :| 0 <= i < |grams| && grams[i] == w;
    assert Spells(names, grams[i], raw[i]);
    ReadingSpelled(names, terms, lems, lemNames, lids, w, raw[i]);
  }

  lemma CaseSpelled(
    names: seq<Word>, terms: Word -> seq<Term>, lems: LemTable, lemNames: seq<Term>,
    grams: seq<Gram>, raw: seq<seq<Word>>, grp: Group, ts: seq<Term>, c: Case)
    requires Dictionary(names, terms, lems, lemNames) && SpellsAll(names, grams, raw)
    requires Spells(lemNames, grp.lids, ts) && c in grp.cases
    requires Countable(lems, grams) && AreCases(lems, grp.lids, grams, grp.cases)
    ensures CaseOfTerms(names, terms, ts, raw, c)
  {
    var j :| 0 <= j < |grp.cases| && grp.cases[j] == c;
    assert IsCaseOf(c.wids, grp);
    CaseIsCarrier(lems, grams, grp, c.wids);
    assert c in multiset(grp.cases) && Expected(lems, grp.lids, grams, c) > 0;
    SpelledMember(names, grams, raw, c.wids);
    SpelledCopies(names, grams, raw, c.wids, WordsOf(names, c.wids));
    CarriedTerms(names, terms, lems, lemNames, grp.lids, ts, c.wids, WordsOf(names, c.wids));
  }

  lemma CarrierHasCase(
    names: seq<Word>, terms: Word -> seq<Term>, lems: LemTable, lemNames: seq<Term>,
    grams: seq<Gram>, raw: seq<seq<Word>>, grp: Group, ts: seq<Term>, ws: seq<Word>)
    requires Dictionary(names, terms, lems, lemNames) && SpellsAll(names, grams, raw)
    requires Spells(lemNames, grp.lids, ts) && ws in raw && TermsCarried(terms, ts, ws)
    requires Countable(lems, grams) && AreCases(lems, grp.lids, grams, grp.cases)
    ensures HasCase(names, grp.cases, ws)
  {
    var i :| 0 <= i < |raw| && raw[i] == ws;
    assert Spells(names, grams[i], raw[i]);
    CarriedTerms(names, terms, lems, lemNames, grp.lids, ts, grams[i], ws);
    CaseIsCarrier(lems, grams, grp, grams[i]);
    var j :| 0 <= j < |grp.cases| && grp.cases[j].wids == grams[i];
    assert grp.cases[j] in grp.cases;
    SpellsWordsOf(names, grams[i], ws);
  }

  lemma CasesSpelled(
    names: seq<Word>, terms: Word -> seq<Term>, lems: LemTable, lemNames: seq<Term>,
    grams: seq<Gram>, raw: seq<seq<Word>>, grp: Group, ts: seq<Term>)
    requires Dictionary(names, terms, lems, lemNames) && SpellsAll(names, grams, raw)
    requires Spells(lemNames, grp.lids, ts)
    requires Countable(lems, grams) && AreCases(lems, grp.lids, grams, grp.cases)
    ensures CasesOfTerms(names, terms, ts, raw, grp.cases)
  {
    forall c | c in grp.cases ensures CaseOfTerms(names, terms, ts, raw, c) {
      CaseSpelled(names, terms, lems, lemNames, grams, raw, grp, ts, c);
    }
    forall ws | ws in raw && TermsCarried(terms, ts, ws) ensures HasCase(names, grp.cases, ws) {
      CarrierHasCase(names, terms, lems, lemNames, grams, raw, grp, ts, ws);
    }
  }

  /** The weight of a lemma over the corpus is the weight of its term over the raw documents. */
  lemma OneWeightOf(
    names: seq<Word>, terms: Word -> seq<Term>, lems: LemTable, lemNames: seq<Term>,
    corpus: seq<Phrase>, raw1: seq<seq<Word>>, l: nat, t: Term)
    requires Dictionary(names, terms, lems, lemNames) && SpellsAll(names, AllWindows(1, corpus), raw1)
    requires 1 <= l <= |lemNames| && lemNames[l - 1] == t
    ensures CorpusWeight(lems, [l], corpus) == OneWeight(terms, t, raw1)
  {
    WeightOfTerms(names, terms, lems, lemNames, [l], [t], AllWindows(1, corpus), raw1);
  }

  lemma OneWeights(
    names: seq<Word>, terms: Word -> seq<Term>, lems: LemTable, lemNames: seq<Term>,
    corpus: seq<Phrase>, raw1: seq<seq<Word>>, g: Gram, ts: seq<Term>)
    requires Dictionary(names, terms, lems, lemNames) && SpellsAll(names, AllWindows(1, corpus), raw1)
    requires Spells(lemNames, g, ts)
    ensures forall i | 0 <= i < |g| :: CorpusWeight(lems, [g[i]], corpus) == OneWeight(terms, ts[i], raw1)
  {
    forall i | 0 <= i < |g| ensures CorpusWeight(lems, [g[i]], corpus) == OneWeight(terms, ts[i], raw1) {
      OneWeightOf(names, terms, lems, lemNames, corpus, raw1, g[i], ts[i]);
    }
  }

  lemma PairWeightsOfTerms(
    names: seq<Word>, terms: Word -> seq<Term>, lems: LemTable, lemNames: seq<Term>, corpus: seq<Phrase>,
    raw1: seq<seq<Word>>, raw2: seq<seq<Word>>, g: Gram, ts: seq<Term>)
    requires Dictionary(names, terms, lems, lemNames) && |g| == 2 && Spells(lemNames, g, ts)
    requires SpellsAll(names, AllWindows(1, corpus), raw1) && SpellsAll(names, AllWindows(2, corpus), raw2)
    ensures CorpusWeight(lems, g, corpus) == TermWeight(terms, ts, raw2)
    ensures CorpusWeight(lems, [g[0]], corpus) == OneWeight(terms, ts[0], raw1)
    ensures CorpusWeight(lems, [g[1]], corpus) == OneWeight(terms, ts[1], raw1)
  {
    WeightOfTerms(names, terms, lems, lemNames, g, ts, AllWindows(2, corpus), raw2);
    OneWeights(names, terms, lems, lemNames, corpus, raw1, g, ts);
  }

  lemma PairScoreOver(
    lems: LemTable, corpus: seq<Phrase>, l: nat, t: real, g: Gram, score: real, w: real, a: real, b: real)
    requires |g| == 2 && w == CorpusWeight(lems, g, corpus) && a == CorpusWeight(lems, [g[0]], corpus)
    requires b == CorpusWeight(lems, [g[1]], corpus)
    requires IsPairScore(l, CorpusWeight(lems, g, corpus), t, CorpusWeight(lems, [g[0]], corpus),
                         CorpusWeight(lems, [g[1]], corpus), score)
    ensures IsPairScore(l, w, t, a, b, score)
  {
  }

  lemma PairOfTerms(
    names: seq<Word>, terms: Word -> seq<Term>, lems: LemTable, lemNames: seq<Term>,
    corpus: seq<Phrase>, raw1: seq<seq<Word>>, raw2: seq<seq<Word>>, l: nat, t: real, grp: Group)
    requires Dictionary(names, terms, lems, lemNames)
    requires SpellsAll(names, AllWindows(1, corpus), raw1) && SpellsAll(names, AllWindows(2, corpus), raw2)
    requires Countable(lems, AllWindows(2, corpus))
    requires IsPairGroup(lems, corpus, l, t, grp) && Occurs(lems, grp.lids, AllWindows(2, corpus))
    ensures IsTermPair(names, lemNames, terms, raw1, raw2, l, t, grp)
  {
    var ts := WordsOf(lemNames, grp.lids);
    OccurringSpelled(names, terms, lems, lemNames, grp.lids, AllWindows(2, corpus), raw2);
    PairWeightsOfTerms(names, terms, lems, lemNames, corpus, raw1, raw2, grp.lids, ts);
    PairScoreOver(lems, corpus, l, t, grp.lids, grp.weight, TermWeight(terms, ts, raw2),
                  OneWeight(terms, ts[0], raw1), OneWeight(terms, ts[1], raw1));
    CasesSpelled(names, terms, lems, lemNames, AllWindows(2, corpus), raw2, grp, ts);
  }

  lemma TripleWeightsOfTerms(
    names: seq<Word>, terms: Word -> seq<Term>, lems: LemTable, lemNames: seq<Term>, corpus: seq<Phrase>,
    kept: set<Gram>, raw1: seq<seq<Word>>, raw3: seq<seq<Word>>, g: Gram, ts: seq<Term>)
    requires Dictionary(names, terms, lems, lemNames) && |g| == 3 && Spells(lemNames, g, ts)
    requires SpellsAll(names, AllWindows(1, corpus), raw1) && SpellsAll(names, Triples(kept, corpus), raw3)
    ensures TripleWeight(lems, g, kept, corpus) == TermWeight(terms, ts, raw3)
    ensures CorpusWeight(lems, [g[0]], corpus) == OneWeight(terms, ts[0], raw1)
    ensures CorpusWeight(lems, [g[1]], corpus) == OneWeight(terms, ts[1], raw1)
    ensures CorpusWeight(lems, [g[2]], corpus) == OneWeight(terms, ts[2], raw1)
  {
    WeightOfTerms(names, terms, lems, lemNames, g, ts, Triples(kept, corpus), raw3);
    OneWeights(names, terms, lems, lemNames, corpus, raw1, g, ts);
  }

  lemma TripleScoreOver(
    lems: LemTable, corpus: seq<Phrase>, kept: set<Gram>, l: nat, t: real, g: Gram, score: real,
    w: real, a: real, b: real, c: real)
    requires |g| == 3 && w == TripleWeight(lems, g, kept, corpus) && a == CorpusWeight(lems, [g[0]], corpus)
    requires b == CorpusWeight(lems, [g[1]], corpus) && c == CorpusWeight(lems, [g[2]], corpus)
    requires IsTripleScore(l, TripleWeight(lems, g, kept, corpus), t, CorpusWeight(lems, [g[0]], corpus),
                           CorpusWeight(lems, [g[1]], corpus), CorpusWeight(lems, [g[2]], corpus), score)
    ensures IsTripleScore(l, w, t, a, b, c, score)
  {
  }

  lemma TripleOfTerms(
    names: seq<Word>, terms: Word -> seq<Term>, lems: LemTable, lemNames: seq<Term>, corpus: seq<Phrase>,
    kept: set<Gram>, raw1: seq<seq<Word>>, raw3: seq<seq<Word>>, l: nat, t: real, grp: Group)
    requires Dictionary(names, terms, lems, lemNames)
    requires SpellsAll(names, AllWindows(1, corpus), raw1) && SpellsAll(names, Triples(kept, corpus), raw3)
    requires Countable(lems, Triples(kept, corpus))
    requires IsTripleGroup(lems, corpus, kept, l, t, grp) && Occurs(lems, grp.lids, Triples(kept, corpus))
    ensures IsTermTriple(names, lemNames, terms, raw1, raw3, l, t, grp)
  {
    var ts := WordsOf(lemNames, grp.lids);
    assert Spells(lemNames, grp.lids, ts) by {
      OccurringSpelled(names, terms, lems, lemNames, grp.lids, Triples(kept, corpus), raw3);
    }
    TripleWeightsOfTerms(names, terms, lems, lemNames, corpus, kept, raw1, raw3, grp.lids, ts);
    TripleScoreOver(lems, corpus, kept, l, t, grp.lids, grp.weight, TermWeight(terms, ts, raw3),
                    OneWeight(terms, ts[0], raw1), OneWeight(terms, ts[1], raw1), OneWeight(terms, ts[2], raw1));
    CasesSpelled(names, terms, lems, lemNames, Triples(kept, corpus), raw3, grp, ts);
  }

  /** Passing is the same over numbers and over terms ... */
  lemma PassingIff(
    names: seq<Word>, terms: Word -> seq<Term>, lems: LemTable, lemNames: seq<Term>,
    n: nat, grams: seq<Gram>, raw: seq<seq<Word>>, t: real, g: Gram, ts: seq<Term>)
    requires Dictionary(names, terms, lems, lemNames) && SpellsAll(names, grams, raw) && Spells(lemNames, g, ts)
    ensures TermsPass(terms, n, ts, raw, t) <==>
            |g| == n && Occurs(lems, g, grams) && JointIn(ShareOf(lems), g, grams) > t
  {
    TermsOccurIff(names, terms, lems, lemNames, g, ts, grams, raw);
    WeightOfTerms(names, terms, lems, lemNames, g, ts, grams, raw);
  }

  /** ... and terms that pass have numbers. */
  lemma PassingNumbers(
    names: seq<Word>, terms: Word -> seq<Term>, lems: LemTable, lemNames: seq<Term>,
    n: nat, grams: seq<Gram>, raw: seq<seq<Word>>, t: real, ts: seq<Term>) returns (g: Gram)
    requires Dictionary(names, terms, lems, lemNames) && SpellsAll(names, grams, raw)
    requires TermsPass(terms, n, ts, raw, t)
    ensures Spells(lemNames, g, ts)
  {
    var ws :| ws in raw && TermsCarried(terms, ts, ws);
    var i :| 0 <= i < |raw| && raw[i] == ws;
    assert Spells(names, grams[i], raw[i]);
    g := NumbersOfTerms(names, terms, lems, lemNames, ts, grams[i], ws);
  }

  /** extended2.bin in terms of the raw documents and of the lemmatizer. */
  lemma PairFileOfTerms(
    names: seq<Word>, terms: Word -> seq<Term>, lems: LemTable, lemNames: seq<Term>,
    corpus: seq<Phrase>, raw1: seq<seq<Word>>, raw2: seq<seq<Word>>, l: nat, t: real, groups: seq<Group>)
    requires Dictionary(names, terms, lems, lemNames)
    requires SpellsAll(names, AllWindows(1, corpus), raw1) && SpellsAll(names, AllWindows(2, corpus), raw2)
    requires Countable(lems, AllWindows(2, corpus)) && IsPairFile(lems, corpus, l, t, groups)
    ensures IsTermPairFile(names, lemNames, terms, raw1, raw2, l, t, groups)
  {
    forall grp | grp in groups ensures IsTermPair(names, lemNames, terms, raw1, raw2, l, t, grp) {
      assert Meaning.HasLids(groups, grp.lids) && HasPair(lems, corpus, t, grp.lids);
      PairOfTerms(names, terms, lems, lemNames, corpus, raw1, raw2, l, t, grp);
    }
    forall ts ensures HasTerms(groups, lemNames, ts) <==> TermsPass(terms, 2, ts, raw2, t) {
      if HasTerms(groups, lemNames, ts) {
        var grp :| grp in groups && Spells(lemNames, grp.lids, ts);
        assert Meaning.HasLids(groups, grp.lids) && HasPair(lems, corpus, t, grp.lids);
        PassingIff(names, terms, lems, lemNames, 2, AllWindows(2, corpus), raw2, t, grp.lids, ts);
      }
      if TermsPass(terms, 2, ts, raw2, t) {
        var g := PassingNumbers(names, terms, lems, lemNames, 2, AllWindows(2, corpus), raw2, t, ts);
        PassingIff(names, terms, lems, lemNames, 2, AllWindows(2, corpus), raw2, t, g, ts);
        assert HasPair(lems, corpus, t, g) && Meaning.HasLids(groups, g);
      }
    }
  }

  /** extended3.bin likewise. */
  lemma TripleFileOfTerms(
    names: seq<Word>, terms: Word -> seq<Term>, lems: LemTable, lemNames: seq<Term>, corpus: seq<Phrase>,
    kept: set<Gram>, raw1: seq<seq<Word>>, raw3: seq<seq<Word>>, l: nat, t: real, groups: seq<Group>)
    requires Dictionary(names, terms, lems, lemNames)
    requires SpellsAll(names, AllWindows(1, corpus), raw1) && SpellsAll(names, Triples(kept, corpus), raw3)
    requires Countable(lems, Triples(kept, corpus)) && IsTripleFile(lems, corpus, kept, l, t, groups)
    ensures IsTermTripleFile(names, lemNames, terms, raw1, raw3, l, t, groups)
  {
    forall grp | grp in groups ensures IsTermTriple(names, lemNames, terms, raw1, raw3, l, t, grp) {
      assert Meaning.HasLids(groups, grp.lids) && HasTriple(lems, corpus, kept, t, grp.lids);
      TripleOfTerms(names, terms, lems, lemNames, corpus, kept, raw1, raw3, l, t, grp);
    }
    forall ts ensures HasTerms(groups, lemNames, ts) <==> TermsPass(terms, 3, ts, raw3, t) {
      if HasTerms(groups, lemNames, ts) {
        var grp :| grp in groups && Spells(lemNames, grp.lids, ts);
        assert Meaning.HasLids(groups, grp.lids) && HasTriple(lems, corpus, kept, t, grp.lids);
        PassingIff(names, terms, lems, lemNames, 3, Triples(kept, corpus), raw3, t, grp.lids, ts);
      }
      if TermsPass(terms, 3, ts, raw3, t) {
        var g := PassingNumbers(names, terms, lems, lemNames, 3, Triples(kept, corpus), raw3, t, ts);
        PassingIff(names, terms, lems, lemNames, 3, Triples(kept, corpus), raw3, t, g, ts);
        assert HasTriple(lems, corpus, kept, t, g) && Meaning.HasLids(groups, g);
      }
    }
  }

  // Admitted triples of words --------------------------------------------------------------------------

  /** The pair of words reads as one of the selected pairs of terms. */
  ghost predicate WordsKept(
    lemNames: seq<Term>, terms: Word -> seq<Term>, selected: seq<Group>, ws: seq<Word>)
  {
    exists grp :: grp in selected && TermsCarried(terms, WordsOf(lemNames, grp.lids), ws)
  }

  ghost predicate WordsAdmitted(
    lemNames: seq<Term>, terms: Word -> seq<Term>, selected: seq<Group>, ws: seq<Word>)
  {
    |ws| == 3 && (WordsKept(lemNames, terms, selected, ws[..2]) || WordsKept(lemNames, terms, selected, ws[1..]))
  }

  ghost function AdmitWords(
    lemNames: seq<Term>, terms: Word -> seq<Term>, selected: seq<Group>, raw: seq<seq<Word>>): seq<seq<Word>>
  {
    if raw == [] then []
    else
      var ws := raw[|raw| - 1];
      AdmitWords(lemNames, terms, selected, raw[..|raw| - 1])
      + if WordsAdmitted(lemNames, terms, selected, ws) then [ws] else []
  }

  ghost predicate LidsSpelled(lemNames: seq<Term>, groups: seq<Group>) {
    forall grp | grp in groups :: Spells(lemNames, grp.lids, WordsOf(lemNames, grp.lids))
  }

  lemma KeptIff(
    names: seq<Word>, terms: Word -> seq<Term>, lems: LemTable, lemNames: seq<Term>,
    corpus: seq<Phrase>, selected: seq<Group>, p: Gram, ws: seq<Word>)
    requires Dictionary(names, terms, lems, lemNames) && LidsSpelled(lemNames, selected)
    requires p in AllWindows(2, corpus) && Spells(names, p, ws)
    ensures IsKept(lems, corpus, selected, p) <==> WordsKept(lemNames, terms, selected, ws)
  {
    forall grp | grp in selected
      ensures Carries(lems, grp.lids, p) <==> TermsCarried(terms, WordsOf(lemNames, grp.lids), ws)
    {
      CarriedTerms(names, terms, lems, lemNames, grp.lids, WordsOf(lemNames, grp.lids), p, ws);
    }
  }

  lemma SpellsPart(names: seq<Word>, w: Phrase, ws: seq<Word>, a: nat, b: nat)
    requires Spells(names, w, ws) && a <= b <= |w|
    ensures Spells(names, w[a..b], ws[a..b])
  {
  }

  lemma PartKept(
    names: seq<Word>, terms: Word -> seq<Term>, lems: LemTable, lemNames: seq<Term>,
    corpus: seq<Phrase>, selected: seq<Group>, kept: set<Gram>, w: Gram, ws: seq<Word>, a: nat)
    requires Dictionary(names, terms, lems, lemNames) && LidsSpelled(lemNames, selected)
    requires KeptBy(kept, lems, corpus, selected) && Spells(names, w, ws)
    requires a + 2 <= |w| && w[a..a + 2] in AllWindows(2, corpus)
    ensures w[a..a + 2] in kept <==> WordsKept(lemNames, terms, selected, ws[a..a + 2])
  {
    SpellsPart(names, w, ws, a, a + 2);
    KeptIff(names, terms, lems, lemNames, corpus, selected, w[a..a + 2], ws[a..a + 2]);
  }

  lemma AdmittedIff(
    names: seq<Word>, terms: Word -> seq<Term>, lems: LemTable, lemNames: seq<Term>,
    corpus: seq<Phrase>, selected: seq<Group>, kept: set<Gram>, w: Gram, ws: seq<Word>)
    requires Dictionary(names, terms, lems, lemNames) && LidsSpelled(lemNames, selected)
    requires KeptBy(kept, lems, corpus, selected) && w in AllWindows(3, corpus) && Spells(names, w, ws)
    ensures Admitted(kept, w) <==> WordsAdmitted(lemNames, terms, selected, ws)
  {
    PairsOfWindow(corpus, w);
    assert w[0..2] == w[..2] && w[1..3] == w[1..] && ws[0..2] == ws[..2] && ws[1..3] == ws[1..];
    assert w[..2] in kept <==> WordsKept(lemNames, terms, selected, ws[..2]) by {
      PartKept(names, terms, lems, lemNames, corpus, selected, kept, w, ws, 0);
    }
    assert w[1..] in kept <==> WordsKept(lemNames, terms, selected, ws[1..]) by {
      PartKept(names, terms, lems, lemNames, corpus, selected, kept, w, ws, 1);
    }
  }

  lemma SpellsSnoc(names: seq<Word>, s: seq<Phrase>, t: seq<seq<Word>>, w: Phrase, ws: seq<Word>)
    requires SpellsAll(names, s, t) && Spells(names, w, ws)
    ensures SpellsAll(names, s + [w], t + [ws])
  {
    assert Spells(names, [w][0], [ws][0]);
    SpellsConcat(names, s, [w], t, [ws]);
  }

  lemma AdmitOne(
    names: seq<Word>, terms: Word -> seq<Term>, lemNames: seq<Term>, selected: seq<Group>, kept: set<Gram>,
    s: seq<Gram>, t: seq<seq<Word>>, w: Gram, ws: seq<Word>)
    requires SpellsAll(names, s, t) && Spells(names, w, ws)
    requires Admitted(kept, w) <==> WordsAdmitted(lemNames, terms, selected, ws)
    ensures SpellsAll(names, s + if Admitted(kept, w) then [w] else [],
                      t + if WordsAdmitted(lemNames, terms, selected, ws) then [ws] else [])
  {
    if Admitted(kept, w) {
      SpellsSnoc(names, s, t, w, ws);
    } else {
      assert s + [] == s && t + [] == t;
    }
  }

  /** The admitted windows of numbers spell the admitted windows of words. */
  lemma {:induction false} AdmitSpelled(
    names: seq<Word>, terms: Word -> seq<Term>, lems: LemTable, lemNames: seq<Term>,
    corpus: seq<Phrase>, selected: seq<Group>, kept: set<Gram>, grams: seq<Gram>, raw: seq<seq<Word>>)
    requires Dictionary(names, terms, lems, lemNames) && LidsSpelled(lemNames, selected)
    requires KeptBy(kept, lems, corpus, selected) && SpellsAll(names, grams, raw)
    requires forall w | w in grams :: w in AllWindows(3, corpus)
    ensures SpellsAll(names, Admit(kept, grams), AdmitWords(lemNames, terms, selected, raw))
  {
    if grams != [] {
      var n := |grams| - 1;
      SpellsFront(names, grams, raw);
      assert grams[n] in grams && forall w | w in grams[..n] :: w in grams;
      AdmitSpelled(names, terms, lems, lemNames, corpus, selected, kept, grams[..n], raw[..n]);
      AdmittedIff(names, terms, lems, lemNames, corpus, selected, kept, grams[n], raw[n]);
      AdmitOne(names, terms, lemNames, selected, kept,
               Admit(kept, grams[..n]), AdmitWords(lemNames, terms, selected, raw[..n]), grams[n], raw[n]);
    }
  }
}
