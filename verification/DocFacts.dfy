/** Document frequencies against each other, against the windows of the corpus, and against
    the cases of the groups. */
module DocFacts {
  import opened Orders
  import opened Bags
  import opened Products
  import opened Streams
  import opened Corpus
  import opened Runs
  import opened Lemmer
  import opened Weights
  import opened Grouping
  import opened Meaning
  import opened DocFreq

  // Parts of a reading -----------------------------------------------------------------------

  lemma PartCarried(lems: LemTable, lids: Gram, wids: Gram, a: nat, b: nat)
    requires Carries(lems, lids, wids) && a <= b <= |lids|
    ensures Carries(lems, lids[a..b], wids[a..b])
  {
  }

  lemma {:induction false} OccursInWindow(lems: LemTable, g: Gram, n: nat, doc: seq<Phrase>)
    ensures Occurs(lems, g, AllWindows(n, doc)) <==> exists j :: 0 <= j < |doc| && Occurs(lems, g, Windows(n, doc[j]))
  {
    if doc != [] {
      var m := |doc| - 1;
      OccursInWindow(lems, g, n, doc[..m]);
      OccursConcat(lems, g, AllWindows(n, doc[..m]), Windows(n, doc[m]));
      assert forall j | 0 <= j < m :: doc[..m][j] == doc[j];
    }
  }

  lemma PartOccurs(lems: LemTable, g: Gram, w: Phrase, a: nat, b: nat)
    requires a < b <= |g| && Occurs(lems, g, Windows(|g|, w))
    ensures Occurs(lems, g[a..b], Windows(b - a, w))
  {
    var n, m := |g|, b - a;
    var v :| v in Windows(n, w) && Carries(lems, g, v);
    InWindows(n, w, |w| - n + 1, v);
    var p :| 0 <= p < |w| - n + 1 && Window(n, w, p) == v;
    PartCarried(lems, g, v, a, b);
    WindowPart(n, w, p, a, b);
    InWindows(m, w, |w| - m + 1, Window(m, w, a + p));
  }

  lemma PartInDoc(lems: LemTable, g: Gram, doc: seq<Phrase>, a: nat, b: nat)
    requires a < b <= |g| && InDoc(lems, g, doc)
    ensures InDoc(lems, g[a..b], doc)
  {
    var part, m := g[a..b], b - a;
    OccursInWindow(lems, g, |g|, doc);
    var j :| 0 <= j < |doc| && Occurs(lems, g, Windows(|g|, doc[j]));
    assert Occurs(lems, part, Windows(m, doc[j])) by {
      PartOccurs(lems, g, doc[j], a, b);
    }
    assert Occurs(lems, part, AllWindows(m, doc)) by {
      OccursInWindow(lems, part, m, doc);
    }
    assert |part| == m;
  }

  /** A reading occurs in no more documents than any part of it: a pair in no more than either
      lemma, a triple in no more than its pairs. */
  lemma {:induction false} FrequencyAtMostPart(lems: LemTable, g: Gram, docs: seq<seq<Phrase>>, a: nat, b: nat)
    requires a < b <= |g|
    ensures Frequency(lems, g, docs) <= Frequency(lems, g[a..b], docs)
  {
    if docs != [] {
      var n := |docs| - 1;
      FrequencyAtMostPart(lems, g, docs[..n], a, b);
      if InDoc(lems, g, docs[n]) {
        PartInDoc(lems, g, docs[n], a, b);
      }
    }
  }

  // Windows -------------------------------------------------------------------------------------

  ghost function Carrying(lems: LemTable, g: Gram): Gram -> real {
    (w: Gram) => if Carries(lems, g, w) then 1.0 else 0.0
  }

  /** The number of word n-grams that have the reading `g`. */
  ghost function Carriers(lems: LemTable, g: Gram, grams: seq<Gram>): real {
    Sum(Carrying(lems, g), grams)
  }

  lemma {:induction false} CarriersBound(lems: LemTable, g: Gram, grams: seq<Gram>)
    ensures 0.0 <= Carriers(lems, g, grams) <= |grams| as real
    ensures Occurs(lems, g, grams) ==> Carriers(lems, g, grams) >= 1.0
  {
    if grams != [] {
      var n := |grams| - 1;
      CarriersBound(lems, g, grams[..n]);
      assert grams == grams[..n] + [grams[n]];
      OccursSnoc(lems, g, grams[..n], grams[n]);
    }
  }

  /** Every document with the reading holds a window that carries it, in finished documents and
      in the open one. */
  lemma {:induction false} FrequencyAtMostCarriers(lems: LemTable, g: Gram, corpus: seq<Phrase>)
    requires g != []
    ensures var d := Divide(corpus);
            Frequency(lems, g, d.docs) as real + Carriers(lems, g, AllWindows(|g|, d.open))
              <= Carriers(lems, g, AllWindows(|g|, corpus))
  {
    if corpus != [] {
      var m := |corpus| - 1;
      var d, w := Divide(corpus[..m]), corpus[m];
      FrequencyAtMostCarriers(lems, g, corpus[..m]);
      SumConcat(Carrying(lems, g), AllWindows(|g|, corpus[..m]), Windows(|g|, w));
      if w == [] {
        FrequencySnoc(lems, g, d.docs, d.open);
        CarriersBound(lems, g, AllWindows(|g|, d.open));
      } else {
        AllWindowsSnoc(|g|, d.open, w);
        SumConcat(Carrying(lems, g), AllWindows(|g|, d.open), Windows(|g|, w));
      }
    }
  }

  /** Whatever occurs in the corpus occurs in a finished document or in the open one. */
  lemma {:induction false} OccursInSomeDocument(lems: LemTable, g: Gram, corpus: seq<Phrase>)
    requires g != [] && Occurs(lems, g, AllWindows(|g|, corpus))
    ensures var d := Divide(corpus); Frequency(lems, g, d.docs) > 0 || InDoc(lems, g, d.open)
  {
    var m := |corpus| - 1;
    var d, w := Divide(corpus[..m]), corpus[m];
    OccursConcat(lems, g, AllWindows(|g|, corpus[..m]), Windows(|g|, w));
    if Occurs(lems, g, AllWindows(|g|, corpus[..m])) {
      OccursInSomeDocument(lems, g, corpus[..m]);
    }
    if w == [] {
      FrequencySnoc(lems, g, d.docs, d.open);
    } else {
      InDocSnoc(lems, g, d.open, w);
    }
  }

  /** With every document finished and fewer than 2^32 windows, a counter of documents is exact,
      and zero only for readings that do not occur at all. */
  lemma FrequencyFits(lems: LemTable, g: Gram, corpus: seq<Phrase>)
    requires g != [] && Finished(corpus) && |AllWindows(|g|, corpus)| < 0x1_0000_0000
    ensures Frequency(lems, g, Divide(corpus).docs) < 0x1_0000_0000
    ensures Frequency(lems, g, Divide(corpus).docs) > 0 <==> Occurs(lems, g, AllWindows(|g|, corpus))
  {
    FrequencyAtMostCarriers(lems, g, corpus);
    CarriersBound(lems, g, AllWindows(|g|, corpus));
    CarriersBound(lems, g, AllWindows(|g|, Divide(corpus).open));
    if Occurs(lems, g, AllWindows(|g|, corpus)) {
      OccursInSomeDocument(lems, g, corpus);
    } else {
      NoCarriers(lems, g, AllWindows(|g|, corpus));
    }
  }

  lemma {:induction false} NoCarriers(lems: LemTable, g: Gram, grams: seq<Gram>)
    requires !Occurs(lems, g, grams)
    ensures Carriers(lems, g, grams) == 0.0
  {
    if grams != [] {
      assert grams == grams[..|grams| - 1] + [grams[|grams| - 1]];
      OccursSnoc(lems, g, grams[..|grams| - 1], grams[|grams| - 1]);
      NoCarriers(lems, g, grams[..|grams| - 1]);
    }
  }

  // Cases ------------------------------------------------------------------------------------------

  ghost function CaseCount(c: Case): real {
    c.count as real
  }

  ghost function CountIf(g: Gram): Ext -> real {
    (e: Ext) => if e.lids == g then e.count as real else 0.0
  }

  ghost function Repeated(lems: LemTable, g: Gram): Count -> real {
    (c: Count) => Mul(multiset(Product(lems, c.key))[g] as real, c.weight as real)
  }

  lemma {:induction false} SelectCaseCounts(g: Gram, s: seq<Ext>)
    ensures Sum(CaseCount, CasesOf(Select(ExtKey, g, s))) == Sum(CountIf(g), s)
  {
    if s != [] {
      var n := |s| - 1;
      SelectCaseCounts(g, s[..n]);
      var run := Select(ExtKey, g, s[..n]);
      if s[n].lids == g {
        CasesSnoc(run, s[n]);
        SumSnoc(CaseCount, CasesOf(run), Case(s[n].wids, s[n].count));
      } else {
        assert Select(ExtKey, g, s) == run;
      }
    }
  }

  lemma {:induction false} ExtendedCounts(g: Gram, c: Count, readings: seq<Gram>)
    ensures Sum(CountIf(g), Extended(c, readings)) == Mul(multiset(readings)[g] as real, c.weight as real)
  {
    if readings == [] {
      MulCountUp(0, c.weight as real);
    } else {
      var n := |readings| - 1;
      ExtendedCounts(g, c, readings[..n]);
      assert readings == readings[..n] + [readings[n]];
      SumSnoc(CountIf(g), Extended(c, readings[..n]), Ext(readings[n], c.key, c.weight));
      MulCountUp(multiset(readings[..n])[g], c.weight as real);
    }
  }

  lemma {:induction false} FlatCounts(lems: LemTable, g: Gram, table: seq<Count>)
    ensures Sum(CountIf(g), FlatMap(Extend(lems), table)) == Sum(Repeated(lems, g), table)
  {
    if table != [] {
      var c, rest := table[0], table[1..];
      assert table == [c] + rest;
      assert [c][..0] == [];
      FlatCounts(lems, g, rest);
      ExtendedCounts(g, c, Product(lems, c.key));
      SumConcat(CountIf(g), Extend(lems)(c), FlatMap(Extend(lems), rest));
      SumConcat(Repeated(lems, g), [c], rest);
    }
  }

  lemma CarriedIsReading(lems: LemTable, g: Gram, wids: Gram)
    requires Covered(lems, wids)
    ensures Carries(lems, g, wids) <==> g in Product(lems, wids)
  {
    CarriesIffShare(lems, g, wids);
    ProductShare(lems, g, wids);
    TimesPositive(lems, wids);
    ShareIsFair(lems);
    GramShareBounds(ShareOf(lems), g, wids);
    MulPositive(GramShare(ShareOf(lems), g, wids), Times(lems, wids) as real);
    assert g in Product(lems, wids) <==> g in multiset(Product(lems, wids));
  }

  lemma CarriedIsRepeated(lems: LemTable, g: Gram, c: Count)
    requires Covered(lems, c.key)
    ensures Weighted(Carrying(lems, g))(c) <= Repeated(lems, g)(c)
  {
    CarriedIsReading(lems, g, c.key);
    var k: nat := multiset(Product(lems, c.key))[g];
    assert Carries(lems, g, c.key) ==> g in multiset(Product(lems, c.key));
    MulCopies(k, c.weight);
  }

  lemma {:induction false} RepeatedAtLeastCarrying(lems: LemTable, g: Gram, table: seq<Count>)
    requires forall c | c in table :: Covered(lems, c.key)
    ensures Sum(Weighted(Carrying(lems, g)), table) <= Sum(Repeated(lems, g), table)
  {
    if table != [] {
      var n := |table| - 1;
      assert table[n] in table && forall d | d in table[..n] :: d in table;
      RepeatedAtLeastCarrying(lems, g, table[..n]);
      CarriedIsRepeated(lems, g, table[n]);
    }
  }

  /** The cases of a group account for every window that carries its reading. */
  lemma CasesCoverCarriers(lems: LemTable, g: Gram, table: seq<Count>, grams: seq<Gram>, cases: seq<Case>)
    requires (forall c | c in table :: Covered(lems, c.key)) && Exact(table, grams)
    requires multiset(cases) == Gather(CaseCopies(lems, g), table)
    ensures Carriers(lems, g, grams) <= Sum(CaseCount, cases)
  {
    var flat := FlatMap(Extend(lems), table);
    SelectCases(g, flat);
    FlatCases(lems, g, table);
    SumPermutes(CaseCount, cases, CasesOf(Select(ExtKey, g, flat)));
    SelectCaseCounts(g, flat);
    FlatCounts(lems, g, table);
    RepeatedAtLeastCarrying(lems, g, table);
    TableSum(Carrying(lems, g), table, grams);
  }

  /** A reading is in no more documents than its cases have occurrences. */
  lemma FrequencyAtMostCases(
    lems: LemTable, g: Gram, table: seq<Count>, corpus: seq<Phrase>, cases: seq<Case>)
    requires (forall c | c in table :: Covered(lems, c.key)) && Exact(table, AllWindows(|g|, corpus))
    requires g != [] && multiset(cases) == Gather(CaseCopies(lems, g), table)
    ensures Frequency(lems, g, Divide(corpus).docs) as real <= Sum(CaseCount, cases)
  {
    FrequencyAtMostCarriers(lems, g, corpus);
    CarriersBound(lems, g, AllWindows(|g|, Divide(corpus).open));
    CasesCoverCarriers(lems, g, table, AllWindows(|g|, corpus), cases);
  }
}
