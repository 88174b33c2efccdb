/** Two runs over the same corpus agree, whatever the chunk sizes, the sizes of sorted parts and
    the order in which part files are listed. */
module Agreement {
  import opened Orders
  import opened Bags
  import opened Products
  import opened ExternalSort
  import opened Corpus
  import opened Tables
  import opened Lemmer
  import opened Meaning
  import opened Scores
  import opened DocFreq
  import opened FreqStat
  import opened CorpusFacts
  import opened Pipeline

  // Groups ---------------------------------------------------------------------------------

  /** Equal but for the order of the cases. */
  ghost predicate SameGroup(a: Group, b: Group) {
    a.lids == b.lids && a.weight == b.weight && multiset(a.cases) == multiset(b.cases)
  }

  ghost predicate SameGroups(s: seq<Group>, t: seq<Group>) {
    |s| == |t| && forall i | 0 <= i < |s| :: SameGroup(s[i], t[i])
  }

  ghost function Keys(groups: seq<Group>): seq<Count> {
    seq(|groups|, i requires 0 <= i < |groups| => Count(groups[i].lids, 0))
  }

  lemma KeysHave(groups: seq<Group>, g: Gram)
    ensures HasKey(Keys(groups), g) <==> Meaning.HasLids(groups, g)
  {
    if HasKey(Keys(groups), g) {
      var i :| 0 <= i < |Keys(groups)| && Keys(groups)[i].key == g;
      assert groups[i] in groups;
    }
    if Meaning.HasLids(groups, g) {
      var grp :| grp in groups && grp.lids == g;
      var i :| 0 <= i < |groups| && groups[i] == grp;
      assert Keys(groups)[i].key == g;
    }
  }

  /** Ascending groups with the same lemmas stand at the same places. */
  lemma PlacesAgree(s: seq<Group>, t: seq<Group>)
    requires LidsAscend(s) && LidsAscend(t)
    requires forall g :: Meaning.HasLids(s, g) <==> Meaning.HasLids(t, g)
    ensures |s| == |t| && forall i | 0 <= i < |s| :: s[i].lids == t[i].lids
  {
    forall g ensures HasKey(Keys(s), g) <==> HasKey(Keys(t), g) {
      KeysHave(s, g);
      KeysHave(t, g);
    }
    TablesAgree(Keys(s), Keys(t));
    assert forall i | 0 <= i < |s| :: Keys(s)[i].key == s[i].lids && Keys(t)[i].key == t[i].lids;
  }

  lemma PairScoresAgree(l: nat, w: real, t: real, wi: real, wj: real, a: real, b: real)
    requires IsPairScore(l, w, t, wi, wj, a) && IsPairScore(l, w, t, wi, wj, b)
    ensures a == b
  {
    CancelProduct(Mul(a, wi), Mul(b, wi), wj);
    CancelProduct(a, b, wi);
  }

  lemma TripleScoresAgree(l: nat, w: real, t: real, wi: real, wj: real, wk: real, a: real, b: real)
    requires IsTripleScore(l, w, t, wi, wj, wk, a) && IsTripleScore(l, w, t, wi, wj, wk, b)
    ensures a == b
  {
    CancelProduct(Mul(Mul(a, wi), wj), Mul(Mul(b, wi), wj), wk);
    CancelProduct(Mul(a, wi), Mul(b, wi), wj);
    CancelProduct(a, b, wi);
  }

  lemma CasesAgree(lems: LemTable, g: Gram, grams: seq<Gram>, s: seq<Case>, t: seq<Case>)
    requires AreCases(lems, g, grams, s) && AreCases(lems, g, grams, t)
    ensures multiset(s) == multiset(t)
  {
    forall c ensures multiset(s)[c] == multiset(t)[c] {
      assert multiset(s)[c] == Expected(lems, g, grams, c);
    }
  }

  /** extended2.bin is determined by the corpus, the lemma table and the threshold. */
  lemma PairFilesAgree(lems: LemTable, corpus: seq<Phrase>, l: nat, t: real, groups: seq<Group>, groups': seq<Group>)
    requires IsPairFile(lems, corpus, l, t, groups) && IsPairFile(lems, corpus, l, t, groups')
    ensures SameGroups(groups, groups')
  {
    forall g ensures Meaning.HasLids(groups, g) <==> Meaning.HasLids(groups', g) {
      assert Meaning.HasLids(groups, g) <==> HasPair(lems, corpus, t, g);
    }
    PlacesAgree(groups, groups');
    forall i | 0 <= i < |groups| ensures SameGroup(groups[i], groups'[i]) {
      var a, b := groups[i], groups'[i];
      assert a in groups && b in groups';
      CasesAgree(lems, a.lids, AllWindows(2, corpus), a.cases, b.cases);
      PairScoresAgree(l, CorpusWeight(lems, a.lids, corpus), t, CorpusWeight(lems, [a.lids[0]], corpus),
                      CorpusWeight(lems, [a.lids[1]], corpus), a.weight, b.weight);
    }
  }

  /** extended3.bin is determined by these and the kept pairs of words. */
  lemma TripleFilesAgree(
    lems: LemTable, corpus: seq<Phrase>, kept: set<Gram>, l: nat, t: real, groups: seq<Group>, groups': seq<Group>)
    requires IsTripleFile(lems, corpus, kept, l, t, groups) && IsTripleFile(lems, corpus, kept, l, t, groups')
    ensures SameGroups(groups, groups')
  {
    forall g ensures Meaning.HasLids(groups, g) <==> Meaning.HasLids(groups', g) {
      assert Meaning.HasLids(groups, g) <==> HasTriple(lems, corpus, kept, t, g);
    }
    PlacesAgree(groups, groups');
    forall i | 0 <= i < |groups| ensures SameGroup(groups[i], groups'[i]) {
      var a, b := groups[i], groups'[i];
      assert a in groups && b in groups';
      CasesAgree(lems, a.lids, Triples(kept, corpus), a.cases, b.cases);
      TripleScoresAgree(l, TripleWeight(lems, a.lids, kept, corpus), t, CorpusWeight(lems, [a.lids[0]], corpus),
                        CorpusWeight(lems, [a.lids[1]], corpus), CorpusWeight(lems, [a.lids[2]], corpus),
                        a.weight, b.weight);
    }
  }

  // Frequencies and selections --------------------------------------------------------------

  lemma FrequenciesAgree(
    lems: LemTable, docs: seq<seq<Phrase>>, groups: seq<Group>, groups': seq<Group>,
    file: seq<Count>, file': seq<Count>)
    requires SameGroups(groups, groups')
    requires CountsDocuments(file, lems, docs, groups) && CountsDocuments(file', lems, docs, groups')
    ensures file == file'
  {
    forall g ensures HasKey(file, g) <==> HasKey(file', g) {
      assert forall i | 0 <= i < |groups| :: SameGroup(groups[i], groups'[i]);
      assert HasGroup(groups, g) <==> HasGroup(groups', g);
    }
    forall i, j | 0 <= i < |file| && 0 <= j < |file'| && file[i].key == file'[j].key ensures file[i] == file'[j] {
      assert file[i] in file && file'[j] in file';
    }
    TablesAgree(file, file');
  }

  lemma SelectionsAgree(
    lems: LemTable, docs: seq<seq<Phrase>>, th1: u32, th2: real, groups: seq<Group>, groups': seq<Group>,
    selected: seq<Group>, selected': seq<Group>, g: Gram)
    requires SameGroups(groups, groups') && Meaning.HasLids(selected, g)
    requires IsSelection(selected, lems, docs, th1, th2, groups)
    requires IsSelection(selected', lems, docs, th1, th2, groups')
    ensures Meaning.HasLids(selected', g)
  {
    var grp :| grp in selected && grp.lids == g;
    assert grp in multiset(selected) && Selected(lems, docs, th1, th2, groups, grp) > 0;
    assert grp in groups;
    var i :| 0 <= i < |groups| && groups[i] == grp;
    var grp' := groups'[i];
    assert SameGroup(grp, grp') && grp' in groups';
    assert multiset(selected')[grp'] == Selected(lems, docs, th1, th2, groups', grp') > 0;
    assert grp' in selected';
  }

  // Filtered files ----------------------------------------------------------------------------

  /** A group without the order of its cases. */
  datatype Shape = Shape(lids: Gram, cases: multiset<Case>, weight: real)

  ghost function ShapeOf(grp: Group): Shape {
    Shape(grp.lids, multiset(grp.cases), grp.weight)
  }

  ghost function Shapes(s: seq<Group>): seq<Shape> {
    seq(|s|, i requires 0 <= i < |s| => ShapeOf(s[i]))
  }

  ghost function OneShape(grp: Group): multiset<Shape> {
    multiset{ShapeOf(grp)}
  }

  predicate ShapeLess(a: Shape, b: Shape) {
    GroupLess(Group(a.lids, [], a.weight), Group(b.lids, [], b.weight))
  }

  /** Both filters' files agree: the same groups but for the order of cases, and place by place the
      same score. */
  ghost predicate SameSelection(s: seq<Group>, t: seq<Group>) {
    && multiset(Shapes(s)) == multiset(Shapes(t))
    && |s| == |t| && forall i | 0 <= i < |s| :: s[i].weight == t[i].weight
  }

  ghost predicate Chosen(lems: LemTable, docs: seq<seq<Phrase>>, th1: u32, th2: real, grp: Group) {
    Frequency(lems, grp.lids, docs) > th1 && grp.weight > th2
  }

  ghost function Choice(
    lems: LemTable, docs: seq<seq<Phrase>>, th1: u32, th2: real, groups: seq<Group>): seq<Group>
  {
    if groups == [] then []
    else
      var grp := groups[|groups| - 1];
      Choice(lems, docs, th1, th2, groups[..|groups| - 1]) + if Chosen(lems, docs, th1, th2, grp) then [grp] else []
  }

  lemma {:induction false} ChoiceCopies(
    lems: LemTable, docs: seq<seq<Phrase>>, th1: u32, th2: real, groups: seq<Group>, grp: Group)
    ensures multiset(Choice(lems, docs, th1, th2, groups))[grp] == Selected(lems, docs, th1, th2, groups, grp)
  {
    if groups != [] {
      var n := |groups| - 1;
      assert groups == groups[..n] + [groups[n]];
      ChoiceCopies(lems, docs, th1, th2, groups[..n], grp);
    }
  }

  lemma {:induction false} ShapesBag(s: seq<Group>)
    ensures multiset(Shapes(s)) == Gather(OneShape, s)
  {
    if s != [] {
      var n := |s| - 1;
      ShapesBag(s[..n]);
      assert Shapes(s) == Shapes(s[..n]) + [ShapeOf(s[n])];
    }
  }

  lemma {:induction false} ChoiceShapes(
    lems: LemTable, docs: seq<seq<Phrase>>, th1: u32, th2: real, groups: seq<Group>, groups': seq<Group>)
    requires SameGroups(groups, groups')
    ensures Shapes(Choice(lems, docs, th1, th2, groups)) == Shapes(Choice(lems, docs, th1, th2, groups'))
  {
    if groups != [] {
      var n := |groups| - 1;
      assert SameGroup(groups[n], groups'[n]);
      forall i | 0 <= i < n ensures SameGroup(groups[..n][i], groups'[..n][i]) {
        assert SameGroup(groups[i], groups'[i]);
      }
      ChoiceShapes(lems, docs, th1, th2, groups[..n], groups'[..n]);
      ShapesSnoc(Choice(lems, docs, th1, th2, groups[..n]), groups[n]);
      ShapesSnoc(Choice(lems, docs, th1, th2, groups'[..n]), groups'[n]);
      assert Choice(lems, docs, th1, th2, groups[..n]) + [] == Choice(lems, docs, th1, th2, groups[..n]);
      assert Choice(lems, docs, th1, th2, groups'[..n]) + [] == Choice(lems, docs, th1, th2, groups'[..n]);
    }
  }

  lemma ShapesSnoc(s: seq<Group>, grp: Group)
    ensures Shapes(s + [grp]) == Shapes(s) + [ShapeOf(grp)]
  {
  }

  lemma SelectionShapes(
    out: seq<Group>, lems: LemTable, docs: seq<seq<Phrase>>, th1: u32, th2: real, groups: seq<Group>)
    requires IsSelection(out, lems, docs, th1, th2, groups)
    ensures multiset(Shapes(out)) == multiset(Shapes(Choice(lems, docs, th1, th2, groups)))
    ensures Sorted(ShapeLess, Shapes(out))
  {
    var choice := Choice(lems, docs, th1, th2, groups);
    ChoiceIsSelection(out, lems, docs, th1, th2, groups);
    GatherPermutes(OneShape, out, choice);
    ShapesBag(out);
    ShapesBag(choice);
    ShapesSorted(out);
  }

  lemma ShapesSorted(s: seq<Group>)
    requires Sorted(GroupLess, s)
    ensures Sorted(ShapeLess, Shapes(s))
  {
    assert forall i, j | 0 <= i < j < |s| :: !GroupLess(s[i], s[j]);
  }

  lemma ChoiceIsSelection(
    out: seq<Group>, lems: LemTable, docs: seq<seq<Phrase>>, th1: u32, th2: real, groups: seq<Group>)
    requires IsSelection(out, lems, docs, th1, th2, groups)
    ensures multiset(out) == multiset(Choice(lems, docs, th1, th2, groups))
  {
    var choice := Choice(lems, docs, th1, th2, groups);
    forall grp ensures multiset(out)[grp] == multiset(choice)[grp] {
      ChoiceCopies(lems, docs, th1, th2, groups, grp);
    }
  }

  lemma FilesSelectedAgree(
    lems: LemTable, docs: seq<seq<Phrase>>, th1: u32, th2: real, groups: seq<Group>, groups': seq<Group>,
    out: seq<Group>, out': seq<Group>)
    requires SameGroups(groups, groups')
    requires IsSelection(out, lems, docs, th1, th2, groups) && IsSelection(out', lems, docs, th1, th2, groups')
    ensures SameSelection(out, out')
  {
    SelectionShapes(out, lems, docs, th1, th2, groups);
    SelectionShapes(out', lems, docs, th1, th2, groups');
    ChoiceShapes(lems, docs, th1, th2, groups, groups');
    var s, t := Shapes(out), Shapes(out');
    assert |s| == |multiset(s)| == |multiset(t)| == |t|;
    forall i | 0 <= i < |out| ensures out[i].weight == out'[i].weight {
      SortedPlaces(ShapeLess, s, t, i);
    }
  }

  lemma KeptAgree(f: Files, f': Files, s: Settings, s': Settings, kept: set<Gram>, kept': set<Gram>, p: Gram)
    requires Extracted(f, s, kept) && Extracted(f', s', kept')
    requires SameInput(f, f') && SameThresholds(s, s') && SameGroups(f.extended2, f'.extended2)
    requires p in kept
    ensures p in kept'
  {
    assert IsKept(f.lems, f.corpus, f.bifiltered, p);
    var grp :| grp in f.bifiltered && Carries(f.lems, grp.lids, p);
    SelectionsAgree(f.lems, Divide(f.corpus).docs, s.pairDocs, s.pairScore, f.extended2, f'.extended2,
                    f.bifiltered, f'.bifiltered, grp.lids);
    var grp' :| grp' in f'.bifiltered && grp'.lids == grp.lids;
    assert IsKept(f'.lems, f'.corpus, f'.bifiltered, p);
  }

  // Runs ---------------------------------------------------------------------------------------

  ghost predicate SameInput(f: Files, f': Files) {
    f.corpus == f'.corpus && f.lems == f'.lems && |f.lemids| == |f'.lemids|
  }

  /** The settings differ in sizes at most. */
  ghost predicate SameThresholds(s: Settings, s': Settings) {
    s' == s.(chunkDocs := s'.chunkDocs, maxExtended := s'.maxExtended, maxGroups := s'.maxGroups)
  }

  lemma SameGroupsBack(s: seq<Group>, t: seq<Group>)
    requires SameGroups(s, t)
    ensures SameGroups(t, s)
  {
    forall i | 0 <= i < |s| ensures SameGroup(t[i], s[i]) {
      assert SameGroup(s[i], t[i]);
    }
  }

  lemma PairStagesAgree(f: Files, f': Files, s: Settings, s': Settings)
    requires HasPairs(f, s) && HasPairs(f', s')
    requires SameInput(f, f') && SameThresholds(s, s')
    ensures f.bi == f'.bi && SameGroups(f.extended2, f'.extended2) && f.bifreq == f'.bifreq
    ensures f.lemids == f'.lemids ==> f.lemfreq == f'.lemfreq
    ensures SameSelection(f.bifiltered, f'.bifiltered)
  {
    CountTableUnique(f.bi, f'.bi, multiset(AllWindows(2, f.corpus)));
    PairFilesAgree(f.lems, f.corpus, |f.lemids|, s.pairThreshold, f.extended2, f'.extended2);
    FrequenciesAgree(f.lems, Divide(f.corpus).docs, f.extended2, f'.extended2, f.bifreq, f'.bifreq);
    FilesSelectedAgree(f.lems, Divide(f.corpus).docs, s.pairDocs, s.pairScore, f.extended2, f'.extended2,
                       f.bifiltered, f'.bifiltered);
  }

  lemma TripleStagesAgree(f: Files, f': Files, s: Settings, s': Settings, kept: set<Gram>)
    requires HasTriples(f, s, kept) && HasTriples(f', s', kept)
    requires SameInput(f, f') && SameThresholds(s, s')
    ensures f.tri == f'.tri && SameGroups(f.extended3, f'.extended3) && f.trifreq == f'.trifreq
    ensures SameSelection(f.trifiltered, f'.trifiltered)
  {
    CountTableUnique(f.tri, f'.tri, multiset(Triples(kept, f.corpus)));
    TripleFilesAgree(f.lems, f.corpus, kept, |f.lemids|, s.tripleThreshold, f.extended3, f'.extended3);
    FrequenciesAgree(f.lems, Divide(f.corpus).docs, f.extended3, f'.extended3, f.trifreq, f'.trifreq);
    FilesSelectedAgree(f.lems, Divide(f.corpus).docs, s.tripleDocs, s.tripleScore, f.extended3, f'.extended3,
                       f.trifiltered, f'.trifiltered);
  }

  /** Two runs over the same corpus write the same counts, groups, frequencies and selections, but
      for the order of cases within a group and of groups with equal scores. */
  lemma RunsAgree(f: Files, f': Files, s: Settings, s': Settings, kept: set<Gram>, kept': set<Gram>)
    requires Extracted(f, s, kept) && Extracted(f', s', kept')
    requires SameInput(f, f') && SameThresholds(s, s')
    ensures f.bi == f'.bi && SameGroups(f.extended2, f'.extended2) && f.bifreq == f'.bifreq
    ensures f.lemids == f'.lemids ==> f.lemfreq == f'.lemfreq
    ensures SameSelection(f.bifiltered, f'.bifiltered)
    ensures kept == kept'
    ensures f.tri == f'.tri && SameGroups(f.extended3, f'.extended3) && f.trifreq == f'.trifreq
    ensures SameSelection(f.trifiltered, f'.trifiltered)
  {
    PairStagesAgree(f, f', s, s');
    SameGroupsBack(f.extended2, f'.extended2);
    forall p ensures p in kept <==> p in kept' {
      if p in kept {
        KeptAgree(f, f', s, s', kept, kept', p);
      }
      if p in kept' {
        KeptAgree(f', f, s', s, kept', kept, p);
      }
    }
    assert kept == kept';
    TripleStagesAgree(f, f', s, s', kept);
  }
}
