/** What the groups mean: the joint weight, the cases and the score of each, in terms of the
    table of counts they were made from. */
module Meaning {
  import opened Orders
  import opened Bags
  import opened Products
  import opened Streams
  import opened Runs
  import opened Lemmer
  import opened Weights
  import opened Grouping

  // Joint weight ------------------------------------------------------------------------

  ghost function QuotaIf(lems: LemTable, g: Gram): Ext -> real {
    (e: Ext) => if e.lids == g then Quota(lems, e) else 0.0
  }

  lemma {:induction false} SelectSum(lems: LemTable, g: Gram, s: seq<Ext>)
    ensures Sum(QuotaOf(lems), Select(ExtKey, g, s)) == Sum(QuotaIf(lems, g), s)
  {
    if s != [] {
      var n := |s| - 1;
      SelectSum(lems, g, s[..n]);
      var run := Select(ExtKey, g, s[..n]);
      if s[n].lids == g {
        SumSnoc(QuotaOf(lems), run, s[n]);
      } else {
        assert Select(ExtKey, g, s) == run;
      }
    }
  }

  lemma {:induction false} ExtendedSum(lems: LemTable, g: Gram, c: Count, readings: seq<Gram>, q: real)
    requires q == Quota(lems, Ext(g, c.key, c.weight))
    ensures Sum(QuotaIf(lems, g), Extended(c, readings)) == Mul(multiset(readings)[g] as real, q)
  {
    if readings == [] {
      MulCountUp(0, q);
    } else {
      var n := |readings| - 1;
      ExtendedSum(lems, g, c, readings[..n], q);
      assert readings == readings[..n] + [readings[n]];
      SumSnoc(QuotaIf(lems, g), Extended(c, readings[..n]), Ext(readings[n], c.key, c.weight));
      MulCountUp(multiset(readings[..n])[g], q);
    }
  }

  lemma ExtendSum(lems: LemTable, g: Gram, c: Count)
    requires Covered(lems, c.key)
    ensures Sum(QuotaIf(lems, g), Extend(lems)(c)) == Weighted(ShareIn(ShareOf(lems), g))(c)
  {
    TimesPositive(lems, c.key);
    var q := Quota(lems, Ext(g, c.key, c.weight));
    ExtendedSum(lems, g, c, Product(lems, c.key), q);
    ProductShare(lems, g, c.key);
    var part: nat := multiset(Product(lems, c.key))[g];
    CrossFractions(part, Times(lems, c.key), c.weight, GramShare(ShareOf(lems), g, c.key), q);
  }

  lemma {:induction false} FlatSum(lems: LemTable, g: Gram, table: seq<Count>)
    requires forall c | c in table :: Covered(lems, c.key)
    ensures Sum(QuotaIf(lems, g), FlatMap(Extend(lems), table)) == Joint(ShareOf(lems), g, table)
  {
    if table != [] {
      var c, rest := table[0], table[1..];
      assert table == [c] + rest && c in table;
      assert [c][..0] == [];
      FlatSum(lems, g, rest);
      ExtendSum(lems, g, c);
      SumConcat(QuotaIf(lems, g), Extend(lems)(c), FlatMap(Extend(lems), rest));
      SumConcat(Weighted(ShareIn(ShareOf(lems), g)), [c], rest);
    }
  }

  /** The weight summed up over a run is the joint weight over the table. */
  lemma RunIsJoint(lems: LemTable, g: Gram, s: seq<Ext>, table: seq<Count>)
    requires forall c | c in table :: Covered(lems, c.key)
    requires multiset(s) == multiset(FlatMap(Extend(lems), table))
    ensures Sum(QuotaOf(lems), Select(ExtKey, g, s)) == Joint(ShareOf(lems), g, table)
  {
    SelectSum(lems, g, s);
    SumPermutes(QuotaIf(lems, g), s, FlatMap(Extend(lems), table));
    FlatSum(lems, g, table);
  }

  // Cases -----------------------------------------------------------------------------------

  ghost function CaseIf(g: Gram): Ext -> multiset<Case> {
    (e: Ext) => if e.lids == g then multiset{Case(e.wids, e.count)} else multiset{}
  }

  /** A table entry is a case of `g` as often as `g` is among its readings. */
  ghost function CaseCopies(lems: LemTable, g: Gram): Count -> multiset<Case> {
    (c: Count) => multiset{}[Case(c.key, c.weight) := multiset(Product(lems, c.key))[g]]
  }

  lemma {:induction false} SelectCases(g: Gram, s: seq<Ext>)
    ensures multiset(CasesOf(Select(ExtKey, g, s))) == Gather(CaseIf(g), s)
  {
    if s != [] {
      var n := |s| - 1;
      SelectCases(g, s[..n]);
      var run := Select(ExtKey, g, s[..n]);
      if s[n].lids == g {
        CasesSnoc(run, s[n]);
      } else {
        assert Select(ExtKey, g, s) == run;
      }
    }
  }

  lemma CopyOnce<T>(x: T, k: nat)
    ensures multiset{}[x := k] + multiset{x} == multiset{}[x := k + 1]
    ensures multiset{}[x := 0] == multiset{}
  {
  }

  lemma {:induction false} ExtendedCases(g: Gram, c: Count, readings: seq<Gram>)
    ensures Gather(CaseIf(g), Extended(c, readings)) == multiset{}[Case(c.key, c.weight) := multiset(readings)[g]]
  {
    CopyOnce(Case(c.key, c.weight), 0);
    if readings != [] {
      var n := |readings| - 1;
      var k: nat := multiset(readings[..n])[g];
      ExtendedCases(g, c, readings[..n]);
      assert multiset(readings)[g] == if readings[n] == g then k + 1 else k by {
        assert readings == readings[..n] + [readings[n]];
      }
      GatherSnoc(CaseIf(g), Extended(c, readings[..n]), Ext(readings[n], c.key, c.weight));
      CopyOnce(Case(c.key, c.weight), k);
    }
  }

  lemma {:induction false} FlatCases(lems: LemTable, g: Gram, table: seq<Count>)
    ensures Gather(CaseIf(g), FlatMap(Extend(lems), table)) == Gather(CaseCopies(lems, g), table)
  {
    if table != [] {
      var c, rest := table[0], table[1..];
      assert table == [c] + rest;
      assert [c][..0] == [];
      FlatCases(lems, g, rest);
      ExtendedCases(g, c, Product(lems, c.key));
      GatherConcat(CaseIf(g), Extend(lems)(c), FlatMap(Extend(lems), rest));
      GatherConcat(CaseCopies(lems, g), [c], rest);
    }
  }

  lemma RunCases(lems: LemTable, g: Gram, s: seq<Ext>, table: seq<Count>)
    requires multiset(s) == multiset(FlatMap(Extend(lems), table))
    ensures multiset(CasesOf(Select(ExtKey, g, s))) == Gather(CaseCopies(lems, g), table)
  {
    SelectCases(g, s);
    GatherPermutes(CaseIf(g), s, FlatMap(Extend(lems), table));
    FlatCases(lems, g, table);
  }

  // Which groups there are --------------------------------------------------------------------

  /** `g` is a reading of some n-gram of the table. */
  ghost predicate HasReading(lems: LemTable, table: seq<Count>, g: Gram) {
    exists c :: c in table && g in Product(lems, c.key)
  }

  lemma {:induction false} InExtended(c: Count, readings: seq<Gram>, g: Gram)
    ensures (exists e :: e in Extended(c, readings) && e.lids == g) <==> g in readings
  {
    if readings != [] {
      var n := |readings| - 1;
      InExtended(c, readings[..n], g);
      assert readings == readings[..n] + [readings[n]];
      var last := Ext(readings[n], c.key, c.weight);
      assert last in Extended(c, readings);
      assert forall e :: e in Extended(c, readings) <==> e in Extended(c, readings[..n]) || e == last;
    }
  }

  lemma {:induction false} InFlat(lems: LemTable, table: seq<Count>, g: Gram)
    ensures (exists e :: e in FlatMap(Extend(lems), table) && e.lids == g) <==> HasReading(lems, table, g)
  {
    if table != [] {
      var c, rest := table[0], table[1..];
      assert table == [c] + rest;
      InFlat(lems, rest, g);
      InExtended(c, Product(lems, c.key), g);
      var here, later := Extend(lems)(c), FlatMap(Extend(lems), rest);
      assert FlatMap(Extend(lems), table) == here + later;
      assert forall e :: e in here + later <==> e in here || e in later;
      assert forall d :: d in table <==> d == c || d in rest;
    }
  }

  lemma {:induction false} GroupedMembers(lems: LemTable, score: Score, keys: seq<Gram>, s: seq<Ext>, grp: Group)
    ensures grp in Grouped(ExtKey, GroupOf(lems, score), keys, s) <==>
            grp.lids in keys && grp in GroupOf(lems, score)(grp.lids, Select(ExtKey, grp.lids, s))
  {
    if keys != [] {
      var n := |keys| - 1;
      assert keys == keys[..n] + [keys[n]];
      GroupedMembers(lems, score, keys[..n], s, grp);
    }
  }

  lemma {:induction false} GroupedAscend(lems: LemTable, score: Score, keys: seq<Gram>, s: seq<Ext>)
    requires Ascending(keys)
    ensures LidsAscend(Grouped(ExtKey, GroupOf(lems, score), keys, s))
  {
    if keys != [] {
      var n := |keys| - 1;
      var front := Grouped(ExtKey, GroupOf(lems, score), keys[..n], s);
      GroupedAscend(lems, score, keys[..n], s);
      forall i | 0 <= i < |front| ensures GramMore(keys[n], front[i].lids) {
        GroupedMembers(lems, score, keys[..n], s, front[i]);
        var j :| 0 <= j < n && keys[..n][j] == front[i].lids;
        assert keys[j] == front[i].lids;
      }
    }
  }

  /** Groups come in strictly ascending order of their lemmas. */
  ghost predicate LidsAscend(groups: seq<Group>) {
    forall i, j | 0 <= i < j < |groups| :: GramMore(groups[j].lids, groups[i].lids)
  }

  /** Pairs of lemmas come in the order of their first ids, then of their second. */
  lemma PairLidsAscend(groups: seq<Group>)
    requires LidsAscend(groups) && forall i | 0 <= i < |groups| :: |groups[i].lids| == 2
    ensures forall i, j | 0 <= i < j < |groups| ::
              groups[i].lids[0] < groups[j].lids[0]
              || (groups[i].lids[0] == groups[j].lids[0] && groups[i].lids[1] < groups[j].lids[1])
  {
    forall i, j | 0 <= i < j < |groups|
      ensures groups[i].lids[0] < groups[j].lids[0]
              || (groups[i].lids[0] == groups[j].lids[0] && groups[i].lids[1] < groups[j].lids[1])
    {
      GramMoreTwo(groups[j].lids, groups[i].lids);
    }
  }

  /** Triples likewise. */
  lemma TripleLidsAscend(groups: seq<Group>)
    requires LidsAscend(groups) && forall i | 0 <= i < |groups| :: |groups[i].lids| == 3
    ensures forall i, j | 0 <= i < j < |groups| ::
              groups[i].lids[0] < groups[j].lids[0]
              || (groups[i].lids[0] == groups[j].lids[0]
                  && (groups[i].lids[1] < groups[j].lids[1]
                      || (groups[i].lids[1] == groups[j].lids[1] && groups[i].lids[2] < groups[j].lids[2])))
  {
    forall i, j | 0 <= i < j < |groups|
      ensures groups[i].lids[0] < groups[j].lids[0]
              || (groups[i].lids[0] == groups[j].lids[0]
                  && (groups[i].lids[1] < groups[j].lids[1]
                      || (groups[i].lids[1] == groups[j].lids[1] && groups[i].lids[2] < groups[j].lids[2])))
    {
      GramMoreThree(groups[j].lids, groups[i].lids);
    }
  }

  /** The group that belongs to `grp.lids`, over the table. */
  ghost predicate IsGroup(lems: LemTable, score: Score, table: seq<Count>, grp: Group) {
    && HasReading(lems, table, grp.lids)
    && grp.weight == score(grp.lids, Joint(ShareOf(lems), grp.lids, table)) > 0.0
    && multiset(grp.cases) == Gather(CaseCopies(lems, grp.lids), table)
  }

  ghost predicate HasLids(groups: seq<Group>, g: Gram) {
    exists grp :: grp in groups && grp.lids == g
  }

  /** The file extended2.bin or extended3.bin: the groups of exactly those readings whose score is
      positive, in strictly ascending order. */
  ghost predicate IsGroupFile(lems: LemTable, score: Score, table: seq<Count>, groups: seq<Group>) {
    && LidsAscend(groups)
    && (forall grp | grp in groups :: IsGroup(lems, score, table, grp))
    && (forall g :: HasLids(groups, g) <==>
                    HasReading(lems, table, g) && score(g, Joint(ShareOf(lems), g, table)) > 0.0)
  }

  lemma ReadingIsKey(lems: LemTable, table: seq<Count>, s: seq<Ext>, g: Gram)
    requires KeySorted(ExtKey, s) && multiset(s) == multiset(FlatMap(Extend(lems), table))
    ensures g in RunKeys(ExtKey, s) <==> HasReading(lems, table, g)
  {
    RunKeysAscend(ExtKey, s);
    InFlat(lems, table, g);
    var flat := FlatMap(Extend(lems), table);
    assert forall e :: e in s <==> e in multiset(s);
    assert forall e :: e in flat <==> e in multiset(flat);
    if g in RunKeys(ExtKey, s) {
      var e :| e in s && ExtKey(e) == g;
      assert e in flat && e.lids == g;
    }
    if HasReading(lems, table, g) {
      var e :| e in flat && e.lids == g;
      assert e in s && ExtKey(e) == g;
    }
  }

  /** The merged sequence holds the readings of the table. */
  ghost predicate Merged(lems: LemTable, table: seq<Count>, s: seq<Ext>) {
    && (forall c | c in table :: Covered(lems, c.key))
    && KeySorted(ExtKey, s) && multiset(s) == multiset(FlatMap(Extend(lems), table))
  }

  lemma GroupIsMeant(lems: LemTable, score: Score, table: seq<Count>, s: seq<Ext>, grp: Group)
    requires Merged(lems, table, s) && grp in Groups(lems, score, s)
    ensures IsGroup(lems, score, table, grp)
  {
    var g := grp.lids;
    var run := Select(ExtKey, g, s);
    var weight := Sum(QuotaOf(lems), run);
    assert g in RunKeys(ExtKey, s) && grp in Written(score, g, CasesOf(run), weight) by {
      GroupedMembers(lems, score, RunKeys(ExtKey, s), s, grp);
    }
    assert HasReading(lems, table, g) by {
      ReadingIsKey(lems, table, s, g);
    }
    assert weight == Joint(ShareOf(lems), g, table) by {
      RunIsJoint(lems, g, s, table);
    }
    assert multiset(CasesOf(run)) == Gather(CaseCopies(lems, g), table) by {
      RunCases(lems, g, s, table);
    }
  }

  lemma GroupIsThere(lems: LemTable, score: Score, table: seq<Count>, s: seq<Ext>, g: Gram)
    requires Merged(lems, table, s)
    requires HasReading(lems, table, g) && score(g, Joint(ShareOf(lems), g, table)) > 0.0
    ensures HasLids(Groups(lems, score, s), g)
  {
    ReadingIsKey(lems, table, s, g);
    RunIsJoint(lems, g, s, table);
    var run := Select(ExtKey, g, s);
    var grp := Written(score, g, CasesOf(run), Sum(QuotaOf(lems), run))[0];
    GroupedMembers(lems, score, RunKeys(ExtKey, s), s, grp);
  }

  lemma GroupsMean(lems: LemTable, score: Score, table: seq<Count>, s: seq<Ext>)
    requires Merged(lems, table, s)
    ensures IsGroupFile(lems, score, table, Groups(lems, score, s))
  {
    var out := Groups(lems, score, s);
    RunKeysAscend(ExtKey, s);
    GroupedAscend(lems, score, RunKeys(ExtKey, s), s);
    forall grp | grp in out ensures IsGroup(lems, score, table, grp) {
      GroupIsMeant(lems, score, table, s, grp);
    }
    forall g ensures HasLids(out, g) <==>
                     HasReading(lems, table, g) && score(g, Joint(ShareOf(lems), g, table)) > 0.0 {
      if HasReading(lems, table, g) && score(g, Joint(ShareOf(lems), g, table)) > 0.0 {
        GroupIsThere(lems, score, table, s, g);
      }
    }
  }

  /** `group_lem2` and `group_lem3` without the loading of their inputs. */
  method MakeGroups(table: seq<Count>, lems: LemTable, score: Score, maxElems: nat) returns (groups: seq<Group>)
    requires forall c | c in table :: Covered(lems, c.key)
    ensures IsGroupFile(lems, score, table, groups)
  {
    var paths := ExtendGrams(table, lems, maxElems);
    groups := GroupLem(paths, lems, score);
    ExtendYieldsAll(lems, table);
    ghost var s :| KeySorted(ExtKey, s) && multiset(s) == multiset(Concat(paths)) && groups == Groups(lems, score, s);
    GroupsMean(lems, score, table, s);
  }
}
