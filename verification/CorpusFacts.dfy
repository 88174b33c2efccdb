/** From the tables that the stages exchange back to the corpus they were counted from. */
module CorpusFacts {
  import opened Orders
  import opened Bags
  import opened Products
  import opened Corpus
  import opened Tables
  import opened Counting
  import opened Lemmer
  import opened Weights
  import opened Grouping
  import opened Filters
  import opened Meaning
  import opened DocFreq
  import opened DocFacts
  import opened Scores

  /** The joint weight of a reading over the windows of the corpus; for one lemma, its weight. */
  ghost function CorpusWeight(lems: LemTable, g: Gram, corpus: seq<Phrase>): real {
    JointIn(ShareOf(lems), g, AllWindows(|g|, corpus))
  }

  // Windows --------------------------------------------------------------------------------

  lemma {:induction false} WindowsToSize<T>(n: nat, w: seq<T>, i: nat)
    requires i + n <= |w| + 1
    ensures |WindowsTo(n, w, i)| == i
  {
    if i > 0 {
      WindowsToSize(n, w, i - 1);
    }
  }

  lemma {:induction false} FewerWindows<T>(n: nat, stream: seq<seq<T>>)
    requires n > 0
    ensures |AllWindows(n, stream)| <= |AllWindows(1, stream)|
  {
    if stream != [] {
      var m := |stream| - 1;
      var w := stream[m];
      FewerWindows(n, stream[..m]);
      WindowsToSize(1, w, |w|);
      if |w| >= n {
        WindowsToSize(n, w, |w| - n + 1);
      }
    }
  }

  lemma {:induction false} InAllWindows(n: nat, corpus: seq<Phrase>, g: Gram)
    requires n > 0 && g in AllWindows(n, corpus)
    ensures |g| == n
    ensures exists j, p :: 0 <= j < |corpus| && 0 <= p && p + n <= |corpus[j]| && Window(n, corpus[j], p) == g
  {
    var m := |corpus| - 1;
    var w := corpus[m];
    if g in AllWindows(n, corpus[..m]) {
      InAllWindows(n, corpus[..m], g);
      var j, p :| 0 <= j < m && 0 <= p && p + n <= |corpus[..m][j]| && Window(n, corpus[..m][j], p) == g;
      assert corpus[j] == corpus[..m][j];
    } else {
      InWindows(n, w, |w| - n + 1, g);
      var p :| 0 <= p < |w| - n + 1 && Window(n, w, p) == g;
    }
  }

  /** A part of a window is a window. */
  lemma PartIsWindow(n: nat, corpus: seq<Phrase>, w: Gram, a: nat, b: nat)
    requires a < b <= n && w in AllWindows(n, corpus)
    ensures |w| == n && w[a..b] in AllWindows(b - a, corpus)
  {
    InAllWindows(n, corpus, w);
    var j, p :| 0 <= j < |corpus| && 0 <= p && p + n <= |corpus[j]| && Window(n, corpus[j], p) == w;
    WindowPart(n, corpus[j], p, a, b);
    WindowListed(b - a, corpus, j, a + p);
  }

  lemma PairsOfWindow(corpus: seq<Phrase>, w: Gram)
    requires w in AllWindows(3, corpus)
    ensures |w| == 3 && w[..2] in AllWindows(2, corpus) && w[1..] in AllWindows(2, corpus)
  {
    PartIsWindow(3, corpus, w, 0, 2);
    PartIsWindow(3, corpus, w, 1, 3);
    assert w[0..2] == w[..2] && w[1..3] == w[1..];
  }

  lemma {:induction false} WindowListed(n: nat, corpus: seq<Phrase>, j: nat, p: nat)
    requires n > 0 && j < |corpus| && p + n <= |corpus[j]|
    ensures Window(n, corpus[j], p) in AllWindows(n, corpus)
  {
    var m := |corpus| - 1;
    if j < m {
      WindowListed(n, corpus[..m], j, p);
    } else {
      InWindows(n, corpus[m], |corpus[m]| - n + 1, Window(n, corpus[m], p));
    }
  }

  ghost predicate KnownPhrase(lems: LemTable, w: Phrase) {
    forall k | 0 <= k < |w| :: LemsOf(lems, w[k]) != []
  }

  /** Every word of the corpus is in the table and has a lemma. */
  ghost predicate KnownWords(lems: LemTable, corpus: seq<Phrase>) {
    forall j | 0 <= j < |corpus| :: KnownPhrase(lems, corpus[j])
  }

  lemma WindowsCovered(lems: LemTable, n: nat, corpus: seq<Phrase>, g: Gram)
    requires n > 0 && KnownWords(lems, corpus) && g in AllWindows(n, corpus)
    ensures |g| == n && Covered(lems, g)
  {
    InAllWindows(n, corpus, g);
    var j, p :| 0 <= j < |corpus| && 0 <= p && p + n <= |corpus[j]| && Window(n, corpus[j], p) == g;
    assert KnownPhrase(lems, corpus[j]);
    forall i | 0 <= i < n ensures LemsOf(lems, g[i]) != [] {
      assert g[i] == corpus[j][p + i];
    }
  }

  /** Tables of windows of known words are covered. */
  lemma TableCovered(lems: LemTable, n: nat, corpus: seq<Phrase>, table: seq<Count>, grams: seq<Gram>)
    requires n > 0 && KnownWords(lems, corpus) && Exact(table, grams)
    requires forall g | g in grams :: g in AllWindows(n, corpus)
    ensures forall c | c in table :: |c.key| == n && Covered(lems, c.key)
  {
    forall c | c in table ensures |c.key| == n && Covered(lems, c.key) {
      var i :| 0 <= i < |table| && table[i] == c;
      assert HasKey(table, c.key) && Listed(table, grams, c.key);
      WindowsCovered(lems, n, corpus, c.key);
    }
  }

  lemma {:induction false} AdmitSubset(kept: set<Gram>, grams: seq<Gram>)
    ensures forall g | g in Admit(kept, grams) :: g in grams && Admitted(kept, g)
    ensures |Admit(kept, grams)| <= |grams|
  {
    if grams != [] {
      assert grams == grams[..|grams| - 1] + [grams[|grams| - 1]];
      AdmitSubset(kept, grams[..|grams| - 1]);
    }
  }

  /** Admitting only some windows can only lower a sum, and it lowers the sum unless all windows
      that count are admitted. */
  lemma {:induction false} AdmittedSum(f: Gram -> real, kept: set<Gram>, grams: seq<Gram>)
    requires forall g :: f(g) >= 0.0
    ensures Sum(f, Admit(kept, grams)) <= Sum(f, grams)
    ensures Sum(f, Admit(kept, grams)) == Sum(f, grams) <==> forall w | w in grams && f(w) > 0.0 :: Admitted(kept, w)
  {
    if grams != [] {
      var n := |grams| - 1;
      AdmittedSum(f, kept, grams[..n]);
      AdmitSnoc(kept, grams[..n], grams[n]);
      assert grams == grams[..n] + [grams[n]];
      SumSnoc(f, Admit(kept, grams[..n]), grams[n]);
      if !Admitted(kept, grams[n]) {
        assert Admit(kept, grams) == Admit(kept, grams[..n]);
      }
      assert forall w :: w in grams <==> w in grams[..n] || w == grams[n];
    }
  }

  // Readings -------------------------------------------------------------------------------

  lemma ReadingOccurs(lems: LemTable, table: seq<Count>, grams: seq<Gram>, g: Gram)
    requires Exact(table, grams) && forall c | c in table :: Covered(lems, c.key)
    ensures HasReading(lems, table, g) <==> Occurs(lems, g, grams)
  {
    if HasReading(lems, table, g) {
      var c :| c in table && g in Product(lems, c.key);
      var i :| 0 <= i < |table| && table[i] == c;
      assert HasKey(table, c.key) && Listed(table, grams, c.key);
      CarriedIsReading(lems, g, c.key);
      assert c.key in grams;
    }
    if Occurs(lems, g, grams) {
      var w :| w in grams && Carries(lems, g, w);
      assert w in multiset(grams) && Listed(table, grams, w);
      var i :| 0 <= i < |table| && table[i].key == w;
      assert table[i] in table;
      CarriedIsReading(lems, g, w);
    }
  }

  /** A reading that occurs weighs something. */
  lemma {:induction false} OccurringWeighs(lems: LemTable, g: Gram, grams: seq<Gram>)
    requires Occurs(lems, g, grams)
    ensures JointIn(ShareOf(lems), g, grams) > 0.0
  {
    var n := |grams| - 1;
    assert grams == grams[..n] + [grams[n]];
    ShareIsFair(lems);
    JointNonNegative(ShareOf(lems), g, grams[..n]);
    GramShareBounds(ShareOf(lems), g, grams[n]);
    OccursSnoc(lems, g, grams[..n], grams[n]);
    if Occurs(lems, g, grams[..n]) {
      OccurringWeighs(lems, g, grams[..n]);
    } else {
      CarriesIffShare(lems, g, grams[n]);
    }
  }

  // Lemma weights --------------------------------------------------------------------------

  lemma ReadingOccursAlone(lems: LemTable, u: Count, grams: seq<Gram>, l: nat)
    requires |u.key| == 1 && u.key in grams && l in LemsOf(lems, u.key[0])
    ensures Occurs(lems, [l], grams)
  {
    assert u.key == [u.key[0]];
    CarriesOne(lems, l, u.key[0]);
  }

  lemma OccursAlone(lems: LemTable, uni: seq<Count>, grams: seq<Gram>, l: nat)
    requires Exact(uni, grams) && Occurs(lems, [l], grams)
    ensures IsReading(lems, l, uni)
  {
    var w :| w in grams && Carries(lems, [l], w);
    assert w in multiset(grams) && Listed(uni, grams, w);
    var i :| 0 <= i < |uni| && uni[i].key == w;
    assert uni[i] in uni && [l][0] in LemsOf(lems, w[0]);
  }

  lemma ReadingOfWord(lems: LemTable, uni: seq<Count>, corpus: seq<Phrase>, l: nat)
    requires Exact(uni, AllWindows(1, corpus)) && KnownWords(lems, corpus)
    ensures IsReading(lems, l, uni) <==> Occurs(lems, [l], AllWindows(1, corpus))
  {
    var grams := AllWindows(1, corpus);
    TableCovered(lems, 1, corpus, uni, grams);
    if IsReading(lems, l, uni) {
      var u :| u in uni && u.key != [] && l in LemsOf(lems, u.key[0]);
      var i :| 0 <= i < |uni| && uni[i] == u;
      assert HasKey(uni, u.key) && Listed(uni, grams, u.key);
      ReadingOccursAlone(lems, u, grams, l);
    }
    if Occurs(lems, [l], grams) {
      OccursAlone(lems, uni, grams, l);
    }
  }

  ghost predicate WeighsLemma(lidW: map<nat, real>, lems: LemTable, corpus: seq<Phrase>, l: nat) {
    && (l in lidW <==> Occurs(lems, [l], AllWindows(1, corpus)))
    && (l in lidW ==> lidW[l] == CorpusWeight(lems, [l], corpus))
  }

  /** `lid_w` holds the weight over the corpus of every lemma that occurs there. */
  ghost predicate WeighsLemmas(lidW: map<nat, real>, lems: LemTable, corpus: seq<Phrase>) {
    forall l :: WeighsLemma(lidW, lems, corpus, l)
  }

  lemma LemmaWeights(lidW: map<nat, real>, lems: LemTable, uni: seq<Count>, corpus: seq<Phrase>)
    requires LemWeights(lidW, lems, uni) && KnownWords(lems, corpus)
    requires Exact(uni, AllWindows(1, corpus))
    ensures WeighsLemmas(lidW, lems, corpus)
  {
    forall l: nat ensures WeighsLemma(lidW, lems, corpus, l) {
      ReadingOfWord(lems, uni, corpus, l);
      JointOfTable(ShareOf(lems), [l], uni, AllWindows(1, corpus));
    }
  }

  lemma OneOf(g: Gram, i: nat)
    requires i < |g|
    ensures g[i..i + 1] == [g[i]]
  {
  }

  lemma LemmaOccursAlone(lems: LemTable, g: Gram, corpus: seq<Phrase>, i: nat)
    requires i < |g| && Occurs(lems, g, AllWindows(|g|, corpus))
    ensures Occurs(lems, [g[i]], AllWindows(1, corpus))
  {
    assert InDoc(lems, [g[i]], corpus) by {
      PartInDoc(lems, g, corpus, i, i + 1);
      OneOf(g, i);
    }
    assert |[g[i]]| == 1;
  }

  /** The unchecked look-ups of `write_one` hit: every lemma of an occurring reading has a
      positive weight. */
  lemma LookupsHit(lidW: map<nat, real>, lems: LemTable, g: Gram, corpus: seq<Phrase>)
    requires WeighsLemmas(lidW, lems, corpus) && Occurs(lems, g, AllWindows(|g|, corpus))
    ensures Occurring(lidW, g)
    ensures forall i | 0 <= i < |g| :: lidW[g[i]] == CorpusWeight(lems, [g[i]], corpus)
  {
    forall i | 0 <= i < |g|
      ensures g[i] in lidW && lidW[g[i]] > 0.0 && lidW[g[i]] == CorpusWeight(lems, [g[i]], corpus)
    {
      assert WeighsLemma(lidW, lems, corpus, g[i]);
      LemmaOccursAlone(lems, g, corpus, i);
      OccurringWeighs(lems, [g[i]], AllWindows(1, corpus));
    }
  }

  // Cases ----------------------------------------------------------------------------------

  /** The cases of `g` are the word n-grams with their counts in `grams`, each as often as `g` is
      among its readings. */
  ghost predicate AreCases(lems: LemTable, g: Gram, grams: seq<Gram>, cases: seq<Case>) {
    forall c :: multiset(cases)[c] == Expected(lems, g, grams, c)
  }

  ghost function Expected(lems: LemTable, g: Gram, grams: seq<Gram>, c: Case): nat {
    if c.count > 0 && c.count == multiset(grams)[c.wids] then multiset(Product(lems, c.wids))[g] else 0
  }

  lemma {:induction false} TableCases(lems: LemTable, g: Gram, t: seq<Count>, c: Case)
    requires DistinctKeys(t)
    ensures Gather(CaseCopies(lems, g), t)[c] ==
            if Count(c.wids, c.count) in t then multiset(Product(lems, c.wids))[g] else 0
  {
    if t != [] {
      var n := |t| - 1;
      assert t == t[..n] + [t[n]];
      TableCases(lems, g, t[..n], c);
    }
  }

  lemma CasesExpected(lems: LemTable, g: Gram, table: seq<Count>, grams: seq<Gram>, cases: seq<Case>)
    requires Exact(table, grams)
    ensures AreCases(lems, g, grams, cases) <==> multiset(cases) == Gather(CaseCopies(lems, g), table)
  {
    var bag := Gather(CaseCopies(lems, g), table);
    forall c ensures bag[c] == Expected(lems, g, grams, c) {
      TableCases(lems, g, table, c);
      assert Listed(table, grams, c.wids);
      if Count(c.wids, c.count) in table {
        var i :| 0 <= i < |table| && table[i] == Count(c.wids, c.count);
        assert HasKey(table, c.wids);
      } else if c.wids in multiset(grams) {
        var i :| 0 <= i < |table| && table[i].key == c.wids;
        assert table[i] in table && table[i] == Count(c.wids, table[i].weight);
      }
    }
    if AreCases(lems, g, grams, cases) {
      forall c ensures multiset(cases)[c] == bag[c] {
      }
    }
  }

  /** Every n-gram of the list is covered, and there are too few of them for a counter to wrap. */
  ghost predicate Countable(lems: LemTable, grams: seq<Gram>) {
    |grams| < 0x1_0000_0000 && forall p | p in grams :: Covered(lems, p)
  }

  lemma WindowsCountable(lems: LemTable, n: nat, corpus: seq<Phrase>)
    requires n > 0 && KnownWords(lems, corpus) && |AllWindows(1, corpus)| < 0x1_0000_0000
    ensures Countable(lems, AllWindows(n, corpus))
  {
    FewerWindows(n, corpus);
    forall p | p in AllWindows(n, corpus) ensures Covered(lems, p) {
      WindowsCovered(lems, n, corpus, p);
    }
  }

  /** The cases of a group are the n-grams that carry its reading. */
  lemma CaseIsCarrier(lems: LemTable, grams: seq<Gram>, grp: Group, p: Gram)
    requires Countable(lems, grams) && AreCases(lems, grp.lids, grams, grp.cases)
    ensures IsCaseOf(p, grp) <==> p in grams && Carries(lems, grp.lids, p)
  {
    if IsCaseOf(p, grp) {
      var j :| 0 <= j < |grp.cases| && grp.cases[j].wids == p;
      var c := grp.cases[j];
      assert c in multiset(grp.cases);
      assert Expected(lems, grp.lids, grams, c) > 0;
      assert p in multiset(grams);
      CarriedIsReading(lems, grp.lids, p);
    }
    if p in grams && Carries(lems, grp.lids, p) {
      CarriedIsReading(lems, grp.lids, p);
      CountAtMost(grams, p);
      assert p in multiset(grams);
      CaseExists(lems, grp, grams, p);
    }
  }

  lemma CaseExists(lems: LemTable, grp: Group, grams: seq<Gram>, p: Gram)
    requires AreCases(lems, grp.lids, grams, grp.cases) && grp.lids in Product(lems, p)
    requires 0 < multiset(grams)[p] < 0x1_0000_0000
    ensures IsCaseOf(p, grp)
  {
    var c := Case(p, multiset(grams)[p]);
    assert multiset(grp.cases)[c] == Expected(lems, grp.lids, grams, c);
    assert c in grp.cases;
    var j :| 0 <= j < |grp.cases| && grp.cases[j] == c;
  }

  // Group files over the corpus ---------------------------------------------------------------

  /** extended2.bin in terms of the corpus: the pairs of lemmas that occur and weigh more than the
      threshold, ascending, with the documented score and all their cases. `l` is the number of
      lemmas. */
  ghost predicate IsPairFile(lems: LemTable, corpus: seq<Phrase>, l: nat, t: real, groups: seq<Group>) {
    && LidsAscend(groups)
    && (forall g :: HasLids(groups, g) <==> HasPair(lems, corpus, t, g))
    && (forall grp | grp in groups :: IsPairGroup(lems, corpus, l, t, grp))
  }

  ghost predicate HasPair(lems: LemTable, corpus: seq<Phrase>, t: real, g: Gram) {
    |g| == 2 && Occurs(lems, g, AllWindows(2, corpus)) && CorpusWeight(lems, g, corpus) > t
  }

  ghost predicate IsPairGroup(lems: LemTable, corpus: seq<Phrase>, l: nat, t: real, grp: Group) {
    && |grp.lids| == 2
    && IsPairScore(l, CorpusWeight(lems, grp.lids, corpus), t, CorpusWeight(lems, [grp.lids[0]], corpus),
                   CorpusWeight(lems, [grp.lids[1]], corpus), grp.weight)
    && AreCases(lems, grp.lids, AllWindows(2, corpus), grp.cases)
  }

  /** Their order in numbers. */
  lemma PairFileAscends(lems: LemTable, corpus: seq<Phrase>, l: nat, t: real, groups: seq<Group>)
    requires IsPairFile(lems, corpus, l, t, groups)
    ensures forall i | 0 <= i < |groups| :: |groups[i].lids| == 2
    ensures forall i, j | 0 <= i < j < |groups| ::
              groups[i].lids[0] < groups[j].lids[0]
              || (groups[i].lids[0] == groups[j].lids[0] && groups[i].lids[1] < groups[j].lids[1])
  {
    forall i | 0 <= i < |groups| ensures |groups[i].lids| == 2 {
      assert IsPairGroup(lems, corpus, l, t, groups[i]);
    }
    PairLidsAscend(groups);
  }

  lemma PairScored(lidW: map<nat, real>, lems: LemTable, corpus: seq<Phrase>, t: real, g: Gram, bi: seq<Count>)
    requires WeighsLemmas(lidW, lems, corpus) && KnownWords(lems, corpus)
    requires Exact(bi, AllWindows(2, corpus)) && HasReading(lems, bi, g)
    ensures |g| == 2 && Occurs(lems, g, AllWindows(2, corpus)) && Occurring(lidW, g)
    ensures Joint(ShareOf(lems), g, bi) == CorpusWeight(lems, g, corpus)
    ensures Score2(lidW, t)(g, CorpusWeight(lems, g, corpus)) > 0.0 <==> CorpusWeight(lems, g, corpus) > t
  {
    TableCovered(lems, 2, corpus, bi, AllWindows(2, corpus));
    ReadingOccurs(lems, bi, AllWindows(2, corpus), g);
    var w :| w in AllWindows(2, corpus) && Carries(lems, g, w);
    WindowsCovered(lems, 2, corpus, w);
    LookupsHit(lidW, lems, g, corpus);
    JointOfTable(ShareOf(lems), g, bi, AllWindows(2, corpus));
    Score2Value(lidW, t, g, CorpusWeight(lems, g, corpus));
  }

  lemma PairScoreMeant(
    lidW: map<nat, real>, lems: LemTable, corpus: seq<Phrase>, t: real, g: Gram, w: real, score: real)
    requires WeighsLemmas(lidW, lems, corpus) && |g| == 2 && Occurs(lems, g, AllWindows(2, corpus))
    requires score == Score2(lidW, t)(g, w) > 0.0
    ensures IsPairScore(|lidW|, w, t, CorpusWeight(lems, [g[0]], corpus), CorpusWeight(lems, [g[1]], corpus), score)
  {
    LookupsHit(lidW, lems, g, corpus);
    Score2Value(lidW, t, g, w);
    PairFormulaScore(|lidW|, w, t, lidW[g[0]], lidW[g[1]]);
  }

  lemma PairGroupMeant(lidW: map<nat, real>, lems: LemTable, corpus: seq<Phrase>, t: real, bi: seq<Count>, grp: Group)
    requires WeighsLemmas(lidW, lems, corpus) && KnownWords(lems, corpus)
    requires Exact(bi, AllWindows(2, corpus)) && IsGroup(lems, Score2(lidW, t), bi, grp)
    ensures IsPairGroup(lems, corpus, |lidW|, t, grp)
  {
    PairScored(lidW, lems, corpus, t, grp.lids, bi);
    PairScoreMeant(lidW, lems, corpus, t, grp.lids, CorpusWeight(lems, grp.lids, corpus), grp.weight);
    CasesExpected(lems, grp.lids, bi, AllWindows(2, corpus), grp.cases);
  }

  /** `group_lem2` from the counts of the corpus on. */
  lemma PairFileMeant(
    lidW: map<nat, real>, lems: LemTable, corpus: seq<Phrase>, t: real, bi: seq<Count>, groups: seq<Group>)
    requires WeighsLemmas(lidW, lems, corpus) && KnownWords(lems, corpus)
    requires Exact(bi, AllWindows(2, corpus)) && IsGroupFile(lems, Score2(lidW, t), bi, groups)
    ensures IsPairFile(lems, corpus, |lidW|, t, groups)
  {
    TableCovered(lems, 2, corpus, bi, AllWindows(2, corpus));
    forall grp | grp in groups ensures IsPairGroup(lems, corpus, |lidW|, t, grp) {
      PairGroupMeant(lidW, lems, corpus, t, bi, grp);
    }
    forall g ensures HasLids(groups, g) <==> HasPair(lems, corpus, t, g) {
      ReadingOccurs(lems, bi, AllWindows(2, corpus), g);
      if HasReading(lems, bi, g) {
        PairScored(lidW, lems, corpus, t, g, bi);
      }
    }
  }

  // Triples -------------------------------------------------------------------------------------

  /** The pair of words is adjacent somewhere and reads as one of the selected pairs of lemmas. */
  ghost predicate IsKept(lems: LemTable, corpus: seq<Phrase>, selected: seq<Group>, p: Gram) {
    p in AllWindows(2, corpus) && exists grp :: grp in selected && Carries(lems, grp.lids, p)
  }

  /** The kept pairs of words are those. */
  ghost predicate KeptBy(kept: set<Gram>, lems: LemTable, corpus: seq<Phrase>, selected: seq<Group>) {
    forall p :: p in kept <==> IsKept(lems, corpus, selected, p)
  }

  /** The windows of three words that `trigram_stat` admits. */
  ghost function Triples(kept: set<Gram>, corpus: seq<Phrase>): seq<Gram> {
    Admit(kept, AllWindows(3, corpus))
  }

  ghost function TripleWeight(lems: LemTable, g: Gram, kept: set<Gram>, corpus: seq<Phrase>): real {
    JointIn(ShareOf(lems), g, Triples(kept, corpus))
  }

  /** No window with the reading `g` is left out. */
  ghost predicate AllAdmitted(lems: LemTable, g: Gram, kept: set<Gram>, corpus: seq<Phrase>) {
    forall w | w in AllWindows(3, corpus) && Carries(lems, g, w) :: Admitted(kept, w)
  }

  /** A triple keeps its whole weight exactly if none of its windows is left out. */
  lemma TripleWeightIff(lems: LemTable, g: Gram, kept: set<Gram>, corpus: seq<Phrase>)
    requires |g| == 3
    ensures TripleWeight(lems, g, kept, corpus) <= CorpusWeight(lems, g, corpus)
    ensures TripleWeight(lems, g, kept, corpus) == CorpusWeight(lems, g, corpus) <==>
            AllAdmitted(lems, g, kept, corpus)
  {
    var f := ShareIn(ShareOf(lems), g);
    forall w ensures f(w) >= 0.0 && (f(w) > 0.0 <==> Carries(lems, g, w)) {
      ShareIsFair(lems);
      GramShareBounds(ShareOf(lems), g, w);
      CarriesIffShare(lems, g, w);
    }
    AdmittedSum(f, kept, AllWindows(3, corpus));
  }

  /** The same for the number of its windows. */
  lemma TripleCarriersIff(lems: LemTable, g: Gram, kept: set<Gram>, corpus: seq<Phrase>)
    ensures Carriers(lems, g, Triples(kept, corpus)) <= Carriers(lems, g, AllWindows(3, corpus))
    ensures Carriers(lems, g, Triples(kept, corpus)) == Carriers(lems, g, AllWindows(3, corpus)) <==>
            AllAdmitted(lems, g, kept, corpus)
  {
    AdmittedSum(Carrying(lems, g), kept, AllWindows(3, corpus));
  }

  /** If one of its pairs is selected, none of its windows is left out. */
  lemma SelectedPairAdmits(
    lems: LemTable, g: Gram, kept: set<Gram>, corpus: seq<Phrase>, selected: seq<Group>, grp: Group)
    requires |g| == 3 && KeptBy(kept, lems, corpus, selected)
    requires grp in selected && (grp.lids == g[..2] || grp.lids == g[1..])
    ensures AllAdmitted(lems, g, kept, corpus)
  {
    forall w | w in AllWindows(3, corpus) && Carries(lems, g, w) ensures Admitted(kept, w) {
      PairsOfWindow(corpus, w);
      if grp.lids == g[..2] {
        PartCarried(lems, g, w, 0, 2);
        assert g[0..2] == g[..2] && w[0..2] == w[..2];
        assert IsKept(lems, corpus, selected, w[..2]);
      } else {
        PartCarried(lems, g, w, 1, 3);
        assert g[1..3] == g[1..] && w[1..3] == w[1..];
        assert IsKept(lems, corpus, selected, w[1..]);
      }
    }
  }

  /** extended3.bin in terms of the corpus and of the kept word pairs. */
  ghost predicate IsTripleFile(
    lems: LemTable, corpus: seq<Phrase>, kept: set<Gram>, l: nat, t: real, groups: seq<Group>)
  {
    && LidsAscend(groups)
    && (forall g :: HasLids(groups, g) <==> HasTriple(lems, corpus, kept, t, g))
    && (forall grp | grp in groups :: IsTripleGroup(lems, corpus, kept, l, t, grp))
  }

  ghost predicate HasTriple(lems: LemTable, corpus: seq<Phrase>, kept: set<Gram>, t: real, g: Gram) {
    |g| == 3 && Occurs(lems, g, Triples(kept, corpus)) && TripleWeight(lems, g, kept, corpus) > t
  }

  ghost predicate IsTripleGroup(
    lems: LemTable, corpus: seq<Phrase>, kept: set<Gram>, l: nat, t: real, grp: Group)
  {
    && |grp.lids| == 3
    && IsTripleScore(l, TripleWeight(lems, grp.lids, kept, corpus), t,
                     CorpusWeight(lems, [grp.lids[0]], corpus), CorpusWeight(lems, [grp.lids[1]], corpus),
                     CorpusWeight(lems, [grp.lids[2]], corpus), grp.weight)
    && AreCases(lems, grp.lids, Triples(kept, corpus), grp.cases)
  }

  lemma TripleFileAscends(
    lems: LemTable, corpus: seq<Phrase>, kept: set<Gram>, l: nat, t: real, groups: seq<Group>)
    requires IsTripleFile(lems, corpus, kept, l, t, groups)
    ensures forall i | 0 <= i < |groups| :: |groups[i].lids| == 3
    ensures forall i, j | 0 <= i < j < |groups| ::
              groups[i].lids[0] < groups[j].lids[0]
              || (groups[i].lids[0] == groups[j].lids[0]
                  && (groups[i].lids[1] < groups[j].lids[1]
                      || (groups[i].lids[1] == groups[j].lids[1] && groups[i].lids[2] < groups[j].lids[2])))
  {
    forall i | 0 <= i < |groups| ensures |groups[i].lids| == 3 {
      assert IsTripleGroup(lems, corpus, kept, l, t, groups[i]);
    }
    TripleLidsAscend(groups);
  }

  lemma TriplesOccur(lems: LemTable, g: Gram, kept: set<Gram>, corpus: seq<Phrase>)
    requires Occurs(lems, g, Triples(kept, corpus))
    ensures |g| == 3 && Occurs(lems, g, AllWindows(3, corpus))
  {
    AdmitSubset(kept, AllWindows(3, corpus));
    var w :| w in Triples(kept, corpus) && Carries(lems, g, w);
    assert w in AllWindows(3, corpus);
    InAllWindows(3, corpus, w);
  }

  lemma TripleScored(
    lidW: map<nat, real>, lems: LemTable, corpus: seq<Phrase>, kept: set<Gram>, t: real, g: Gram, tri: seq<Count>)
    requires WeighsLemmas(lidW, lems, corpus) && KnownWords(lems, corpus)
    requires Exact(tri, Triples(kept, corpus)) && HasReading(lems, tri, g)
    ensures |g| == 3 && Occurs(lems, g, Triples(kept, corpus)) && Occurring(lidW, g)
    ensures Joint(ShareOf(lems), g, tri) == TripleWeight(lems, g, kept, corpus)
    ensures Score3(lidW, t)(g, TripleWeight(lems, g, kept, corpus)) > 0.0 <==> TripleWeight(lems, g, kept, corpus) > t
  {
    var grams := Triples(kept, corpus);
    AdmitSubset(kept, AllWindows(3, corpus));
    TableCovered(lems, 3, corpus, tri, grams);
    ReadingOccurs(lems, tri, grams, g);
    TriplesOccur(lems, g, kept, corpus);
    LookupsHit(lidW, lems, g, corpus);
    JointOfTable(ShareOf(lems), g, tri, grams);
    Score3Value(lidW, t, g, TripleWeight(lems, g, kept, corpus));
  }

  lemma TripleScoreMeant(
    lidW: map<nat, real>, lems: LemTable, corpus: seq<Phrase>, t: real, g: Gram, w: real, score: real)
    requires WeighsLemmas(lidW, lems, corpus) && |g| == 3 && Occurs(lems, g, AllWindows(3, corpus))
    requires score == Score3(lidW, t)(g, w) > 0.0
    ensures IsTripleScore(|lidW|, w, t, CorpusWeight(lems, [g[0]], corpus), CorpusWeight(lems, [g[1]], corpus),
                          CorpusWeight(lems, [g[2]], corpus), score)
  {
    LookupsHit(lidW, lems, g, corpus);
    Score3Value(lidW, t, g, w);
    TripleFormulaScore(|lidW|, w, t, lidW[g[0]], lidW[g[1]], lidW[g[2]]);
  }

  lemma TripleGroupMeant(
    lidW: map<nat, real>, lems: LemTable, corpus: seq<Phrase>, kept: set<Gram>, t: real, tri: seq<Count>, grp: Group)
    requires WeighsLemmas(lidW, lems, corpus) && KnownWords(lems, corpus)
    requires Exact(tri, Triples(kept, corpus)) && IsGroup(lems, Score3(lidW, t), tri, grp)
    ensures IsTripleGroup(lems, corpus, kept, |lidW|, t, grp)
  {
    TripleScored(lidW, lems, corpus, kept, t, grp.lids, tri);
    TriplesOccur(lems, grp.lids, kept, corpus);
    TripleScoreMeant(lidW, lems, corpus, t, grp.lids, TripleWeight(lems, grp.lids, kept, corpus), grp.weight);
    CasesExpected(lems, grp.lids, tri, Triples(kept, corpus), grp.cases);
  }

  /** `group_lem3` from the counts of the corpus on. */
  lemma TripleFileMeant(
    lidW: map<nat, real>, lems: LemTable, corpus: seq<Phrase>, kept: set<Gram>, t: real,
    tri: seq<Count>, groups: seq<Group>)
    requires WeighsLemmas(lidW, lems, corpus) && KnownWords(lems, corpus)
    requires Exact(tri, Triples(kept, corpus)) && IsGroupFile(lems, Score3(lidW, t), tri, groups)
    ensures IsTripleFile(lems, corpus, kept, |lidW|, t, groups)
  {
    AdmitSubset(kept, AllWindows(3, corpus));
    TableCovered(lems, 3, corpus, tri, Triples(kept, corpus));
    forall grp | grp in groups ensures IsTripleGroup(lems, corpus, kept, |lidW|, t, grp) {
      TripleGroupMeant(lidW, lems, corpus, kept, t, tri, grp);
    }
    forall g ensures HasLids(groups, g) <==> HasTriple(lems, corpus, kept, t, g) {
      ReadingOccurs(lems, tri, Triples(kept, corpus), g);
      if HasReading(lems, tri, g) {
        TripleScored(lidW, lems, corpus, kept, t, g, tri);
      }
    }
  }

  // Bounds over the corpus -------------------------------------------------------------------------

  lemma WeightOfPart(lems: LemTable, g: Gram, corpus: seq<Phrase>, a: nat, b: nat)
    requires a < b <= |g|
    ensures CorpusWeight(lems, g, corpus) <= CorpusWeight(lems, g[a..b], corpus)
  {
    var part := g[a..b];
    assert |part| == b - a;
    ShareIsFair(lems);
    JointAtMostPart(ShareOf(lems), g, corpus, a, b);
  }

  /** A reading weighs no more than any of its lemmas. */
  lemma WeightOfLemma(lems: LemTable, g: Gram, corpus: seq<Phrase>, k: nat)
    requires k < |g|
    ensures CorpusWeight(lems, g, corpus) <= CorpusWeight(lems, [g[k]], corpus)
  {
    WeightOfPart(lems, g, corpus, k, k + 1);
    assert g[k..k + 1] == [g[k]];
  }

  /** A pair weighs no more than its lemma at `k`; so with a threshold that is not negative that
      lemma of a written pair exceeds it, and the score is at most `L` over the lemma's weight. */
  lemma PairBounds(lems: LemTable, corpus: seq<Phrase>, l: nat, t: real, groups: seq<Group>, grp: Group, k: nat)
    requires IsPairFile(lems, corpus, l, t, groups) && grp in groups && t >= 0.0 && k < 2
    ensures |grp.lids| == 2
    ensures var w := CorpusWeight(lems, [grp.lids[k]], corpus);
            t < CorpusWeight(lems, grp.lids, corpus) <= w && Mul(grp.weight, w) <= l as real
  {
    var g := grp.lids;
    assert HasLids(groups, g) && HasPair(lems, corpus, t, g) && IsPairGroup(lems, corpus, l, t, grp);
    WeightOfLemma(lems, g, corpus, 0);
    WeightOfLemma(lems, g, corpus, 1);
    PairScoreBound(l, CorpusWeight(lems, g, corpus), t,
                   CorpusWeight(lems, [g[0]], corpus), CorpusWeight(lems, [g[1]], corpus), grp.weight);
  }

  /** An admitted triple weighs no more than its two pairs and its three lemmas. */
  lemma TripleBounds(lems: LemTable, corpus: seq<Phrase>, kept: set<Gram>, g: Gram)
    requires |g| == 3
    ensures var w := TripleWeight(lems, g, kept, corpus);
            && w <= CorpusWeight(lems, g[..2], corpus) && w <= CorpusWeight(lems, g[1..], corpus)
            && forall k | 0 <= k < 3 :: w <= CorpusWeight(lems, [g[k]], corpus)
  {
    TripleWeightIff(lems, g, kept, corpus);
    WeightOfPart(lems, g, corpus, 0, 2);
    WeightOfPart(lems, g, corpus, 1, 3);
    assert g[0..2] == g[..2] && g[1..3] == g[1..];
    forall k | 0 <= k < 3 ensures CorpusWeight(lems, g, corpus) <= CorpusWeight(lems, [g[k]], corpus) {
      WeightOfLemma(lems, g, corpus, k);
    }
  }

  /** With a threshold that is not negative a written triple exceeds it, and its score times the
      weights of any two of its lemmas is at most `L^2`. */
  lemma TripleFileBounds(
    lems: LemTable, corpus: seq<Phrase>, kept: set<Gram>, l: nat, t: real, groups: seq<Group>, grp: Group)
    requires IsTripleFile(lems, corpus, kept, l, t, groups) && grp in groups && t >= 0.0
    ensures |grp.lids| == 3 && t < TripleWeight(lems, grp.lids, kept, corpus)
    ensures var wi, wj, wk := CorpusWeight(lems, [grp.lids[0]], corpus), CorpusWeight(lems, [grp.lids[1]], corpus),
                              CorpusWeight(lems, [grp.lids[2]], corpus);
            && t < wi && t < wj && t < wk
            && ScoreWithin(grp.weight, wi, wj, l) && ScoreWithin(grp.weight, wj, wk, l)
            && ScoreWithin(grp.weight, wk, wi, l)
  {
    var g := grp.lids;
    assert HasLids(groups, g) && HasTriple(lems, corpus, kept, t, g) && IsTripleGroup(lems, corpus, kept, l, t, grp);
    TripleBounds(lems, corpus, kept, g);
    TripleScoreBound(l, TripleWeight(lems, g, kept, corpus), t, CorpusWeight(lems, [g[0]], corpus),
                     CorpusWeight(lems, [g[1]], corpus), CorpusWeight(lems, [g[2]], corpus), grp.weight);
  }
}
