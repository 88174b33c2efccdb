/** `extend_bigrams`, `extend_trigrams`, `build_lem_weights`, `group_lem2` and `group_lem3` of
    src/colloc.cpp, over n-grams of any length. */
module Grouping {
  import opened Orders
  import opened Bags
  import opened Products
  import opened Streams
  import opened ExternalSort
  import opened KMerge
  import opened Runs
  import opened Lemmer
  import opened Weights

  // extend_bigrams, extend_trigrams ----------------------------------------------------

  function Extended(c: Count, readings: seq<Gram>): seq<Ext> {
    if readings == [] then []
    else
      Extended(c, readings[..|readings| - 1]) + [Ext(readings[|readings| - 1], c.key, c.weight)]
  }

  /** The records that `fn` appends for one n-gram: one for every reading. */
  function Extend(lems: LemTable): Count -> seq<Ext> {
    (c: Count) => Extended(c, Product(lems, c.key))
  }

  /** The sorted part files that the merger reads; the source has 80'000'000 for `maxElems`. */
  method ExtendGrams(table: seq<Count>, lems: LemTable, maxElems: nat) returns (paths: seq<seq<Ext>>)
    ensures forall i | 0 <= i < |paths| :: Sorted(ExtMore, paths[i])
    ensures multiset(Concat(paths)) == multiset(Yield(Extend(lems), table))
    ensures CutUp(paths, maxElems, Yield(Extend(lems), table))
  {
    ComparatorsAreOrders();
    var tr := new Transformer(table, Extend(lems));
    var sorter := new ExternalSorter(ExtMore, maxElems);
    paths := sorter.SortTransformed(tr);
    assert paths[0..] == paths;
  }

  lemma ExtendYieldsAll(lems: LemTable, table: seq<Count>)
    requires forall c | c in table :: Covered(lems, c.key)
    ensures Yield(Extend(lems), table) == FlatMap(Extend(lems), table)
  {
    YieldIsFlatMap(Extend(lems), table);
    forall i | 0 <= i < |table| ensures Extend(lems)(table[i]) != [] {
      assert table[i] in table;
      TimesPositive(lems, table[i].key);
      ProductSize(lems, table[i].key);
    }
  }

  // build_lem_weights -------------------------------------------------------------------

  ghost function WeightIn(m: map<nat, real>, lid: nat): real {
    if lid in m then m[lid] else 0.0
  }

  lemma CrossFractions(part: nat, whole: nat, weight: nat, e: real, w: real)
    requires whole > 0 && IsFraction(e, part, whole) && w == weight as real / whole as real
    ensures Mul(part as real, w) == Mul(weight as real, e)
  {
    assert w * whole as real == weight as real;
    assert (e * whole as real) * w == e * (w * whole as real);
  }

  /** The entry of `lid` after the lemmas `terms` have got their shares of `w`. */
  ghost predicate GotShares(m: map<nat, real>, lidW: map<nat, real>, terms: seq<nat>, w: real, lid: nat) {
    && (lid in m <==> lid in lidW || lid in terms)
    && WeightIn(m, lid) == WeightIn(lidW, lid) + Mul(multiset(terms)[lid] as real, w)
  }

  lemma NextShare(
    m: map<nat, real>, after: map<nat, real>, lidW: map<nat, real>, terms: seq<nat>, t: nat, w: real, lid: nat)
    requires GotShares(m, lidW, terms, w, lid) && after == m[t := WeightIn(m, t) + w]
    ensures GotShares(after, lidW, terms + [t], w, lid)
  {
    var k: nat := multiset(terms)[lid];
    assert multiset(terms + [t])[lid] == if lid == t then k + 1 else k;
    MulCountUp(k, w);
  }

  /** The share of one occurrence of a word, added once per lemma. */
  method AddLemmas(lidW: map<nat, real>, terms: seq<nat>, w: real) returns (m: map<nat, real>)
    ensures forall lid :: GotShares(m, lidW, terms, w, lid)
  {
    m := lidW;
    MulCountUp(0, w);
    for j := 0 to |terms|
      invariant forall lid :: GotShares(m, lidW, terms[..j], w, lid)
    {
      ghost var before := m;
      var lid := terms[j];
      m := m[lid := (if lid in m then m[lid] else 0.0) + w];
      ghost var done := terms[..j + 1];
      assert done == terms[..j] + [lid];
      forall l ensures GotShares(m, lidW, done, w, l) {
        NextShare(before, m, lidW, terms[..j], lid, w, l);
      }
    }
    assert terms[..|terms|] == terms;
  }

  ghost predicate IsReading(lems: LemTable, lid: nat, uni: seq<Count>) {
    exists u :: u in uni && u.key != [] && lid in LemsOf(lems, u.key[0])
  }

  ghost predicate LemWeights(lidW: map<nat, real>, lems: LemTable, uni: seq<Count>) {
    && (forall lid :: lid in lidW <==> IsReading(lems, lid, uni))
    && (forall lid :: lid in lidW ==> lidW[lid] == Joint(ShareOf(lems), [lid], uni))
  }

  /** The words read so far, when one more unigram has been folded in. */
  lemma NextUnigram(lems: LemTable, uni: seq<Count>, i: nat, lid: nat, before: real, after: real, w: real)
    requires i < |uni| && |uni[i].key| == 1
    requires before == Joint(ShareOf(lems), [lid], uni[..i])
    requires var ls := LemsOf(lems, uni[i].key[0]);
             && (ls != [] ==> w == uni[i].weight as real / |ls| as real)
             && after == before + Mul(multiset(ls)[lid] as real, w)
    ensures after == Joint(ShareOf(lems), [lid], uni[..i + 1])
  {
    var u, f := uni[i], Weighted(ShareIn(ShareOf(lems), [lid]));
    var ls := LemsOf(lems, u.key[0]);
    assert uni[..i + 1] == uni[..i] + [u];
    SumSnoc(f, uni[..i], u);
    var e := EqualShare(lems, lid, u.key[0]);
    assert GramShare(ShareOf(lems), [lid], u.key) == e by {
      assert [lid][1..] == [] && u.key[1..] == [];
      assert Mul(e, 1.0) == e;
    }
    if ls == [] {
      MulCountUp(0, w);
      assert Mul(u.weight as real, 0.0) == 0.0;
    } else {
      var part: nat := multiset(LemsOf(lems, u.key[0]))[lid];
      CrossFractions(part, |ls|, u.weight, e, w);
    }
  }

  /** `build_lem_weights`: every lemma gets its share of every word. */
  method BuildLemWeights(uni: seq<Count>, lems: LemTable) returns (lidW: map<nat, real>)
    requires forall u | u in uni :: |u.key| == 1
    ensures LemWeights(lidW, lems, uni)
  {
    lidW := map[];
    for i := 0 to |uni|
      invariant forall lid :: lid in lidW <==> IsReading(lems, lid, uni[..i])
      invariant forall lid :: WeightIn(lidW, lid) == Joint(ShareOf(lems), [lid], uni[..i])
    {
      assert uni[i] in uni;
      assert uni[..i + 1] == uni[..i] + [uni[i]];
      var terms := LemsOf(lems, uni[i].key[0]);
      var w := if terms == [] then 0.0 else uni[i].weight as real / |terms| as real;
      ghost var before := lidW;
      lidW := AddLemmas(lidW, terms, w);
      forall lid ensures WeightIn(lidW, lid) == Joint(ShareOf(lems), [lid], uni[..i + 1]) {
        assert GotShares(lidW, before, terms, w, lid);
        NextUnigram(lems, uni, i, lid, WeightIn(before, lid), WeightIn(lidW, lid), w);
      }
      forall lid ensures lid in lidW <==> IsReading(lems, lid, uni[..i + 1]) {
        assert GotShares(lidW, before, terms, w, lid);
        ReadingsGrow(lems, lid, uni, i);
      }
    }
    assert uni[..|uni|] == uni;
  }

  lemma ReadingsGrow(lems: LemTable, lid: nat, uni: seq<Count>, i: nat)
    requires i < |uni| && |uni[i].key| == 1
    ensures IsReading(lems, lid, uni[..i + 1]) <==>
            IsReading(lems, lid, uni[..i]) || lid in LemsOf(lems, uni[i].key[0])
  {
    assert uni[..i + 1] == uni[..i] + [uni[i]];
    if IsReading(lems, lid, uni[..i]) {
      var u :| u in uni[..i] && u.key != [] && lid in LemsOf(lems, u.key[0]);
      assert u in uni[..i + 1];
    }
    if lid in LemsOf(lems, uni[i].key[0]) {
      assert uni[i] in uni[..i + 1];
    }
  }

  // group_lem2, group_lem3 ----------------------------------------------------------------

  function ExtKey(e: Ext): Gram {
    e.lids
  }

  /** `count / times`; a record exists only for n-grams with at least one reading. */
  function Quota(lems: LemTable, e: Ext): real {
    var times := Times(lems, e.wids);
    if times == 0 then 0.0 else e.count as real / times as real
  }

  ghost function QuotaOf(lems: LemTable): Ext -> real {
    (e: Ext) => Quota(lems, e)
  }

  function CasesOf(run: seq<Ext>): seq<Case> {
    if run == [] then [] else CasesOf(run[..|run| - 1]) + [Case(run[|run| - 1].wids, run[|run| - 1].count)]
  }

  /** The score of a group, from its lemmas and its joint weight. */
  type Score = (Gram, real) -> real

  /** `write_one` for the run of records with lemmas `lids`. */
  ghost function GroupOf(lems: LemTable, score: Score): (Gram, seq<Ext>) -> seq<Group> {
    (lids: Gram, run: seq<Ext>) => Written(score, lids, CasesOf(run), Sum(QuotaOf(lems), run))
  }

  function Written(score: Score, lids: Gram, cases: seq<Case>, weight: real): seq<Group> {
    if score(lids, weight) > 0.0 then [Group(lids, cases, score(lids, weight))] else []
  }

  /** The groups written for the merged sequence `s`. */
  ghost function Groups(lems: LemTable, score: Score, s: seq<Ext>): seq<Group> {
    Grouped(ExtKey, GroupOf(lems, score), RunKeys(ExtKey, s), s)
  }

  ghost function ClosedGroups(lems: LemTable, score: Score, s: seq<Ext>): seq<Group>
    requires s != []
  {
    var keys := RunKeys(ExtKey, s);
    Grouped(ExtKey, GroupOf(lems, score), keys[..|keys| - 1], s)
  }

  /** The message being filled and its joint weight. */
  datatype Draft = Draft(lids: Gram, cases: seq<Case>, weight: real)

  /** The draft holds the records of the latest run. */
  ghost predicate Filling(lems: LemTable, s: seq<Ext>, d: Draft) {
    && s != [] && d.lids == s[|s| - 1].lids && d.cases != []
    && d.cases == CasesOf(Select(ExtKey, d.lids, s))
    && d.weight == Sum(QuotaOf(lems), Select(ExtKey, d.lids, s))
  }

  /** `add_cases` and the update of `weight`. */
  function Add(lems: LemTable, d: Draft, e: Ext): Draft {
    Draft(e.lids, d.cases + [Case(e.wids, e.count)], d.weight + Quota(lems, e))
  }

  const EMPTY: Draft := Draft([], [], 0.0)

  lemma CasesSnoc(run: seq<Ext>, e: Ext)
    ensures CasesOf(run + [e]) == CasesOf(run) + [Case(e.wids, e.count)]
  {
    assert (run + [e])[..|run|] == run;
  }

  lemma OneCase(lems: LemTable, e: Ext)
    ensures CasesOf([e]) == Add(lems, EMPTY, e).cases
    ensures Sum(QuotaOf(lems), [e]) == Add(lems, EMPTY, e).weight
  {
    assert [] + [e] == [e];
    CasesSnoc([], e);
    SumSnoc(QuotaOf(lems), [], e);
  }

  lemma FirstExt(lems: LemTable, score: Score, e: Ext)
    ensures ClosedGroups(lems, score, [e]) == [] && Filling(lems, [e], Add(lems, EMPTY, e))
  {
    StartGrouped(ExtKey, GroupOf(lems, score), e);
    SelectSnoc(ExtKey, e.lids, [], e);
    OneCase(lems, e);
    assert [] + [e] == [e];
  }

  lemma SameLemmas(lems: LemTable, score: Score, s: seq<Ext>, e: Ext, d: Draft)
    requires KeySorted(ExtKey, s + [e]) && Filling(lems, s, d) && d.lids == e.lids
    ensures ClosedGroups(lems, score, s + [e]) == ClosedGroups(lems, score, s)
    ensures Filling(lems, s + [e], Add(lems, d, e))
  {
    StepGrouped(ExtKey, GroupOf(lems, score), s, e);
    CasesSnoc(Select(ExtKey, e.lids, s), e);
    SumSnoc(QuotaOf(lems), Select(ExtKey, e.lids, s), e);
  }

  lemma NewLemmas(lems: LemTable, score: Score, s: seq<Ext>, e: Ext, d: Draft)
    requires KeySorted(ExtKey, s + [e]) && Filling(lems, s, d) && d.lids != e.lids
    ensures ClosedGroups(lems, score, s + [e]) ==
            ClosedGroups(lems, score, s) + Written(score, d.lids, d.cases, d.weight)
    ensures Filling(lems, s + [e], Add(lems, EMPTY, e))
  {
    StepGrouped(ExtKey, GroupOf(lems, score), s, e);
    LatestGrouped(ExtKey, GroupOf(lems, score), s);
    OneCase(lems, e);
  }

  lemma ExtsInOrder(it: KMergeIterator<Ext>)
    requires it.Valid() && it.comp == ExtMore
    ensures KeySorted(ExtKey, it.emitted)
  {
    var s := it.emitted;
    forall i, j | 0 <= i < j < |s| ensures !GramMore(s[i].lids, s[j].lids) {
      assert !it.comp(s[i], s[j]);
    }
  }

  /** What the loop variables stand for after the records `s`. */
  ghost predicate State(lems: LemTable, score: Score, s: seq<Ext>, out: seq<Group>, d: Draft) {
    if s == [] then out == [] && d == EMPTY
    else out == ClosedGroups(lems, score, s) && Filling(lems, s, d)
  }

  /** `write_one`: what is written. */
  function WriteOne(score: Score, d: Draft): seq<Group> {
    if d.cases == [] then [] else Written(score, d.lids, d.cases, d.weight)
  }

  /** The loop body: a change of lemmas writes the message and clears it, then the record is
      added as a case. */
  method TakeExt(lems: LemTable, score: Score, ghost s: seq<Ext>, e: Ext, out: seq<Group>, d: Draft)
    returns (more: seq<Group>, next: Draft)
    requires KeySorted(ExtKey, s + [e]) && State(lems, score, s, out, d)
    ensures State(lems, score, s + [e], more, next)
  {
    more, next := out, d;
    if d.lids != e.lids {
      more, next := out + WriteOne(score, d), EMPTY;
    }
    next := Add(lems, next, e);
    if s == [] {
      assert s + [e] == [e];
      FirstExt(lems, score, e);
    } else if d.lids == e.lids {
      SameLemmas(lems, score, s, e, d);
    } else {
      NewLemmas(lems, score, s, e, d);
    }
  }

  /** Writing the draft after the last record completes the groups. */
  lemma LastGroup(lems: LemTable, score: Score, s: seq<Ext>, out: seq<Group>, d: Draft)
    requires State(lems, score, s, out, d)
    ensures out + WriteOne(score, d) == Groups(lems, score, s)
  {
    if s != [] {
      LatestGrouped(ExtKey, GroupOf(lems, score), s);
    }
  }

  /** `out` has the groups of the records `all`, brought in order. */
  ghost predicate GroupsSorted(lems: LemTable, score: Score, all: multiset<Ext>, out: seq<Group>) {
    exists s :: KeySorted(ExtKey, s) && multiset(s) == all && out == Groups(lems, score, s)
  }

  /** `group_lem2` and `group_lem3` from the merged parts on. */
  method GroupLem(paths: seq<seq<Ext>>, lems: LemTable, score: Score) returns (out: seq<Group>)
    requires forall i | 0 <= i < |paths| :: Sorted(ExtMore, paths[i])
    ensures GroupsSorted(lems, score, multiset(Concat(paths)), out)
  {
    ComparatorsAreOrders();
    var it := new KMergeIterator(paths, ExtMore);
    var d := EMPTY;
    out := [];
    while it.good
      invariant it.Valid() && it.InPlace()
      invariant State(lems, score, it.emitted, out, d)
      decreases it.Left()
    {
      ghost var before := it.emitted;
      var e := it.Current();
      it.Next();
      ExtsInOrder(it);
      out, d := TakeExt(lems, score, before, e, out, d);
    }
    ghost var s := it.emitted;
    it.Exhausted();
    ExtsInOrder(it);
    LastGroup(lems, score, s, out, d);
    out := out + WriteOne(score, d);
  }
}
