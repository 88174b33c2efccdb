/** `bifreq_stat` and `trifreq_stat` of src/colloc.cpp: in how many documents a lemma, a pair
    or a triple of lemmas occurs. */
module DocFreq {
  import opened Orders
  import opened Corpus
  import opened Counting
  import opened Lemmer

  /** Some of the word n-grams has the reading `g`. */
  ghost predicate Occurs(lems: LemTable, g: Gram, grams: seq<Gram>) {
    exists w :: w in grams && Carries(lems, g, w)
  }

  ghost predicate InDoc(lems: LemTable, g: Gram, doc: seq<Phrase>) {
    Occurs(lems, g, AllWindows(|g|, doc))
  }

  /** The number of documents in which `g` occurs. */
  ghost function Frequency(lems: LemTable, g: Gram, docs: seq<seq<Phrase>>): nat {
    if docs == [] then 0
    else
      Frequency(lems, g, docs[..|docs| - 1]) + if InDoc(lems, g, docs[|docs| - 1]) then 1 else 0
  }

  lemma OccursConcat(lems: LemTable, g: Gram, s: seq<Gram>, t: seq<Gram>)
    ensures Occurs(lems, g, s + t) <==> Occurs(lems, g, s) || Occurs(lems, g, t)
  {
    assert forall w :: w in s + t <==> w in s || w in t;
  }

  lemma InDocSnoc(lems: LemTable, g: Gram, doc: seq<Phrase>, w: Phrase)
    ensures InDoc(lems, g, doc + [w]) <==> InDoc(lems, g, doc) || Occurs(lems, g, Windows(|g|, w))
  {
    AllWindowsSnoc(|g|, doc, w);
    OccursConcat(lems, g, AllWindows(|g|, doc), Windows(|g|, w));
  }

  lemma FrequencySnoc(lems: LemTable, g: Gram, docs: seq<seq<Phrase>>, doc: seq<Phrase>)
    ensures Frequency(lems, g, docs + [doc]) == Frequency(lems, g, docs) + if InDoc(lems, g, doc) then 1 else 0
  {
    assert (docs + [doc])[..|docs|] == docs;
  }

  // increment ---------------------------------------------------------------------------

  ghost function OrZero<T>(m: map<T, u32>, k: T): nat {
    if k in m then m[k] else 0
  }

  ghost predicate Raised<T>(m: map<T, u32>, seen: set<T>, after: map<T, u32>, k: T) {
    && (k in after <==> k in m || k in seen)
    && OrZero(after, k) == if k in seen then U32(OrZero(m, k) + 1) else OrZero(m, k)
  }

  /** `increment`, which also clears the set. */
  method IncrementAll<T(!new)>(m: map<T, u32>, from: set<T>) returns (after: map<T, u32>, cleared: set<T>)
    ensures forall k :: Raised(m, from, after, k)
    ensures cleared == {}
  {
    cleared := {};
    after := m;
    var rest := from;
    while rest != {}
      invariant rest <= from
      invariant forall k :: Raised(m, from - rest, after, k)
      decreases |rest|
    {
      var el :| el in rest;
      ghost var before := after;
      assert Raised(m, from - rest, before, el);
      var n: nat := if el in after then after[el] else 0;
      after := after[el := U32(n + 1)];
      forall k ensures Raised(m, from - (rest - {el}), after, k) {
        assert Raised(m, from - rest, before, k);
      }
      rest := rest - {el};
    }
    assert from - {} == from;
  }

  // The phrase scan of bifreq_stat ---------------------------------------------------------

  /** The innermost loop: pairs of `rid` with a lemma of the word before. */
  method AddPairs(biset: set<Gram>, keys: set<Gram>, lids: seq<nat>, rid: nat) returns (s: set<Gram>)
    ensures forall g :: g in s <==> g in biset || (g in keys && |g| == 2 && g[1] == rid && g[0] in lids)
  {
    s := biset;
    for q := 0 to |lids|
      invariant forall g :: g in s <==> g in biset || (g in keys && |g| == 2 && g[1] == rid && g[0] in lids[..q])
    {
      assert lids[..q + 1] == lids[..q] + [lids[q]];
      var p := [lids[q], rid];
      assert forall g: Gram :: g == p <==> |g| == 2 && g[1] == rid && g[0] == lids[q];
      if p in keys {
        s := s + {p};
      }
    }
    assert lids[..|lids|] == lids;
  }

  /** The loop over the lemmas `rids` of the word at `it`; `lids` are those of the word before,
      none for the first word. */
  method AddWord(uniset: set<nat>, biset: set<Gram>, keys: set<Gram>, lids: seq<nat>, rids: seq<nat>, isFirst: bool)
    returns (u: set<nat>, b: set<Gram>)
    ensures forall l :: l in u <==> l in uniset || l in rids
    ensures forall g :: g in b <==>
              g in biset || (!isFirst && g in keys && |g| == 2 && g[1] in rids && g[0] in lids)
  {
    u, b := uniset, biset;
    for r := 0 to |rids|
      invariant forall l :: l in u <==> l in uniset || l in rids[..r]
      invariant forall g :: g in b <==>
                  g in biset || (!isFirst && g in keys && |g| == 2 && g[1] in rids[..r] && g[0] in lids)
    {
      assert rids[..r + 1] == rids[..r] + [rids[r]];
      u := u + {rids[r]};
      if isFirst {
        continue;
      }
      b := AddPairs(b, keys, lids, rids[r]);
    }
    assert rids[..|rids|] == rids;
  }

  lemma CarriesOne(lems: LemTable, l: nat, w: nat)
    ensures Carries(lems, [l], [w]) <==> l in LemsOf(lems, w)
  {
    assert [l][0] == l && [w][0] == w;
  }

  lemma CarriesTwo(lems: LemTable, g: Gram, v: nat, w: nat)
    ensures Carries(lems, g, [v, w]) <==> |g| == 2 && g[0] in LemsOf(lems, v) && g[1] in LemsOf(lems, w)
  {
    assert [v, w][0] == v && [v, w][1] == w;
  }

  lemma OccursSnoc(lems: LemTable, g: Gram, s: seq<Gram>, w: Gram)
    ensures Occurs(lems, g, s + [w]) <==> Occurs(lems, g, s) || Carries(lems, g, w)
  {
    OccursConcat(lems, g, s, [w]);
    assert w in [w];
  }

  ghost predicate LemmaSeen(lems: LemTable, before: set<nat>, after: set<nat>, grams: seq<Gram>, l: nat) {
    l in after <==> l in before || Occurs(lems, [l], grams)
  }

  ghost predicate GramSeen(
    lems: LemTable, keys: set<Gram>, before: set<Gram>, after: set<Gram>, grams: seq<Gram>, g: Gram)
  {
    g in after <==> g in before || (g in keys && Occurs(lems, g, grams))
  }

  ghost predicate LemmasSeen(lems: LemTable, before: set<nat>, after: set<nat>, grams: seq<Gram>) {
    forall l :: LemmaSeen(lems, before, after, grams, l)
  }

  ghost predicate GramsSeen(lems: LemTable, keys: set<Gram>, before: set<Gram>, after: set<Gram>, grams: seq<Gram>) {
    forall g :: GramSeen(lems, keys, before, after, grams, g)
  }

  /** The pairs of adjacent words before the word at `it`. */
  ghost function PairsBefore(ids: Phrase, it: nat): seq<Gram>
    requires it <= |ids|
  {
    if it == 0 then [] else WindowsTo(2, ids, it - 1)
  }

  lemma ScanLemma(lems: LemTable, ids: Phrase, it: nat, uniset: set<nat>, u0: set<nat>, u: set<nat>)
    requires it < |ids| && LemmasSeen(lems, uniset, u0, WindowsTo(1, ids, it))
    requires forall l :: l in u <==> l in u0 || l in LemsOf(lems, ids[it])
    ensures LemmasSeen(lems, uniset, u, WindowsTo(1, ids, it + 1))
  {
    var before, after := WindowsTo(1, ids, it), WindowsTo(1, ids, it + 1);
    assert Window(1, ids, it) == [ids[it]];
    forall l ensures LemmaSeen(lems, uniset, u, after, l) {
      assert LemmaSeen(lems, uniset, u0, before, l);
      OccursSnoc(lems, [l], before, [ids[it]]);
      CarriesOne(lems, l, ids[it]);
    }
  }

  lemma ScanPair(lems: LemTable, ids: Phrase, it: nat, keys: set<Gram>, biset: set<Gram>, b0: set<Gram>, b: set<Gram>)
    requires it < |ids| && GramsSeen(lems, keys, biset, b0, PairsBefore(ids, it))
    requires it == 0 ==> b == b0
    requires it > 0 ==> forall g :: g in b <==>
               g in b0 || (g in keys && |g| == 2 && g[1] in LemsOf(lems, ids[it]) && g[0] in LemsOf(lems, ids[it - 1]))
    ensures GramsSeen(lems, keys, biset, b, PairsBefore(ids, it + 1))
  {
    var before, after := PairsBefore(ids, it), PairsBefore(ids, it + 1);
    if it > 0 {
      var pair := [ids[it - 1], ids[it]];
      assert Window(2, ids, it - 1) == pair;
      forall g ensures GramSeen(lems, keys, biset, b, after, g) {
        assert GramSeen(lems, keys, biset, b0, before, g);
        OccursSnoc(lems, g, before, pair);
        CarriesTwo(lems, g, ids[it - 1], ids[it]);
      }
    }
  }

  method ScanPairs(lems: LemTable, ids: Phrase, keys: set<Gram>, uniset: set<nat>, biset: set<Gram>)
    returns (u: set<nat>, b: set<Gram>)
    ensures LemmasSeen(lems, uniset, u, Windows(1, ids))
    ensures GramsSeen(lems, keys, biset, b, Windows(2, ids))
  {
    u, b := uniset, biset;
    for it := 0 to |ids|
      invariant LemmasSeen(lems, uniset, u, WindowsTo(1, ids, it))
      invariant GramsSeen(lems, keys, biset, b, PairsBefore(ids, it))
    {
      ghost var u0, b0 := u, b;
      var isFirst := it == 0;
      var lids := if isFirst then [] else LemsOf(lems, ids[it - 1]);
      u, b := AddWord(u, b, keys, lids, LemsOf(lems, ids[it]), isFirst);
      ScanLemma(lems, ids, it, uniset, u0, u);
      ScanPair(lems, ids, it, keys, biset, b0, b);
    }
  }

  // The phrase scan of trifreq_stat -----------------------------------------------------------

  method AddThird(triset: set<Gram>, keys: set<Gram>, lid: nat, cid: nat, rids: seq<nat>) returns (s: set<Gram>)
    ensures forall g :: g in s <==>
              g in triset || (g in keys && |g| == 3 && g[0] == lid && g[1] == cid && g[2] in rids)
  {
    s := triset;
    for q := 0 to |rids|
      invariant forall g :: g in s <==>
                  g in triset || (g in keys && |g| == 3 && g[0] == lid && g[1] == cid && g[2] in rids[..q])
    {
      assert rids[..q + 1] == rids[..q] + [rids[q]];
      var t := [lid, cid, rids[q]];
      assert forall g: Gram :: g == t <==> |g| == 3 && g[0] == lid && g[1] == cid && g[2] == rids[q];
      if t in keys {
        s := s + {t};
      }
    }
    assert rids[..|rids|] == rids;
  }

  method AddSecond(triset: set<Gram>, keys: set<Gram>, lid: nat, cids: seq<nat>, rids: seq<nat>) returns (s: set<Gram>)
    ensures forall g :: g in s <==>
              g in triset || (g in keys && |g| == 3 && g[0] == lid && g[1] in cids && g[2] in rids)
  {
    s := triset;
    for q := 0 to |cids|
      invariant forall g :: g in s <==>
                  g in triset || (g in keys && |g| == 3 && g[0] == lid && g[1] in cids[..q] && g[2] in rids)
    {
      assert cids[..q + 1] == cids[..q] + [cids[q]];
      s := AddThird(s, keys, lid, cids[q], rids);
    }
    assert cids[..|cids|] == cids;
  }

  method AddFirst(triset: set<Gram>, keys: set<Gram>, lids: seq<nat>, cids: seq<nat>, rids: seq<nat>)
    returns (s: set<Gram>)
    ensures forall g :: g in s <==>
              g in triset || (g in keys && |g| == 3 && g[0] in lids && g[1] in cids && g[2] in rids)
  {
    s := triset;
    for q := 0 to |lids|
      invariant forall g :: g in s <==>
                  g in triset || (g in keys && |g| == 3 && g[0] in lids[..q] && g[1] in cids && g[2] in rids)
    {
      assert lids[..q + 1] == lids[..q] + [lids[q]];
      s := AddSecond(s, keys, lids[q], cids, rids);
    }
    assert lids[..|lids|] == lids;
  }

  lemma CarriesThree(lems: LemTable, g: Gram, u: nat, v: nat, w: nat)
    ensures Carries(lems, g, [u, v, w]) <==>
            |g| == 3 && g[0] in LemsOf(lems, u) && g[1] in LemsOf(lems, v) && g[2] in LemsOf(lems, w)
  {
    assert [u, v, w][0] == u && [u, v, w][1] == v && [u, v, w][2] == w;
  }

  /** The triples of adjacent words that start before `lit`. */
  ghost function TriplesBefore(ids: Phrase, lit: nat): seq<Gram>
    requires lit == 0 || lit + 2 <= |ids|
  {
    if lit == 0 then [] else WindowsTo(3, ids, lit)
  }

  lemma ScanTriple(
    lems: LemTable, ids: Phrase, lit: nat, keys: set<Gram>, triset: set<Gram>, s0: set<Gram>, s: set<Gram>)
    requires lit + 2 < |ids| && GramsSeen(lems, keys, triset, s0, TriplesBefore(ids, lit))
    requires forall g :: g in s <==>
               g in s0 || (g in keys && |g| == 3 && g[0] in LemsOf(lems, ids[lit])
                           && g[1] in LemsOf(lems, ids[lit + 1]) && g[2] in LemsOf(lems, ids[lit + 2]))
    ensures GramsSeen(lems, keys, triset, s, TriplesBefore(ids, lit + 1))
  {
    var before, after := TriplesBefore(ids, lit), TriplesBefore(ids, lit + 1);
    var t := [ids[lit], ids[lit + 1], ids[lit + 2]];
    assert Window(3, ids, lit) == t;
    assert WindowsTo(3, ids, lit) == before;
    forall g ensures GramSeen(lems, keys, triset, s, after, g) {
      assert GramSeen(lems, keys, triset, s0, before, g);
      OccursSnoc(lems, g, before, t);
      CarriesThree(lems, g, ids[lit], ids[lit + 1], ids[lit + 2]);
    }
  }

  method ScanTriples(lems: LemTable, ids: Phrase, keys: set<Gram>, triset: set<Gram>) returns (s: set<Gram>)
    ensures GramsSeen(lems, keys, triset, s, Windows(3, ids))
  {
    s := triset;
    var lit := 0;
    while lit + 2 < |ids|
      invariant lit == 0 || lit + 2 <= |ids|
      invariant GramsSeen(lems, keys, triset, s, TriplesBefore(ids, lit))
    {
      ghost var s0 := s;
      var cit, rit := lit + 1, lit + 2;
      s := AddFirst(s, keys, LemsOf(lems, ids[lit]), LemsOf(lems, ids[cit]), LemsOf(lems, ids[rit]));
      ScanTriple(lems, ids, lit, keys, triset, s0, s);
      lit := cit;
    }
  }

  // The documents ------------------------------------------------------------------------------

  ghost predicate HasFrequency<T>(lems: LemTable, m: map<T, u32>, k: T, g: Gram, docs: seq<seq<Phrase>>) {
    OrZero(m, k) == U32(Frequency(lems, g, docs))
  }

  /** Every entry of `bi` (or `tri`) counts the documents with its reading. */
  ghost predicate GramFrequencies(lems: LemTable, m: CountMap, docs: seq<seq<Phrase>>) {
    forall g :: g in m ==> HasFrequency(lems, m, g, g, docs)
  }

  ghost predicate HasLemmaFrequency(lems: LemTable, uni: map<nat, u32>, docs: seq<seq<Phrase>>, l: nat) {
    (l in uni <==> Frequency(lems, [l], docs) > 0) && HasFrequency(lems, uni, l, [l], docs)
  }

  /** `uni` has the lemmas that occur, each with its number of documents. */
  ghost predicate LemmaFrequencies(lems: LemTable, uni: map<nat, u32>, docs: seq<seq<Phrase>>) {
    forall l :: HasLemmaFrequency(lems, uni, docs, l)
  }

  /** The open document has exactly these readings. */
  ghost predicate OpenLemmas(lems: LemTable, uniset: set<nat>, open: seq<Phrase>) {
    forall l :: LemmaSeen(lems, {}, uniset, AllWindows(1, open), l)
  }

  ghost predicate OpenGrams(lems: LemTable, keys: set<Gram>, n: nat, s: set<Gram>, open: seq<Phrase>) {
    GramsSeen(lems, keys, {}, s, AllWindows(n, open))
  }

  ghost predicate Uniform(keys: set<Gram>, n: nat) {
    forall g | g in keys :: |g| == n
  }

  lemma CloseGrams(
    lems: LemTable, n: nat, m: CountMap, s: set<Gram>, after: CountMap, docs: seq<seq<Phrase>>, open: seq<Phrase>)
    requires Uniform(m.Keys, n) && GramFrequencies(lems, m, docs) && OpenGrams(lems, m.Keys, n, s, open)
    requires forall k :: Raised(m, s, after, k)
    ensures after.Keys == m.Keys && GramFrequencies(lems, after, docs + [open])
  {
    forall g ensures g in after <==> g in m {
      assert Raised(m, s, after, g);
      assert GramSeen(lems, m.Keys, {}, s, AllWindows(n, open), g);
    }
    forall g | g in after ensures HasFrequency(lems, after, g, g, docs + [open]) {
      assert Raised(m, s, after, g);
      assert GramSeen(lems, m.Keys, {}, s, AllWindows(n, open), g);
      assert HasFrequency(lems, m, g, g, docs);
      FrequencySnoc(lems, g, docs, open);
      U32Add(Frequency(lems, g, docs), 1);
    }
  }

  lemma CloseLemmas(
    lems: LemTable, uni: map<nat, u32>, s: set<nat>, after: map<nat, u32>, docs: seq<seq<Phrase>>, open: seq<Phrase>)
    requires LemmaFrequencies(lems, uni, docs) && OpenLemmas(lems, s, open)
    requires forall k :: Raised(uni, s, after, k)
    ensures LemmaFrequencies(lems, after, docs + [open])
  {
    forall l ensures HasLemmaFrequency(lems, after, docs + [open], l) {
      assert Raised(uni, s, after, l);
      assert LemmaSeen(lems, {}, s, AllWindows(1, open), l);
      assert HasLemmaFrequency(lems, uni, docs, l);
      FrequencySnoc(lems, [l], docs, open);
      U32Add(Frequency(lems, [l], docs), 1);
    }
  }

  lemma GrowGrams(lems: LemTable, keys: set<Gram>, n: nat, s0: set<Gram>, s: set<Gram>, open: seq<Phrase>, w: Phrase)
    requires OpenGrams(lems, keys, n, s0, open) && GramsSeen(lems, keys, s0, s, Windows(n, w))
    ensures OpenGrams(lems, keys, n, s, open + [w])
  {
    AllWindowsSnoc(n, open, w);
    forall g ensures GramSeen(lems, keys, {}, s, AllWindows(n, open + [w]), g) {
      assert GramSeen(lems, keys, {}, s0, AllWindows(n, open), g);
      assert GramSeen(lems, keys, s0, s, Windows(n, w), g);
      OccursConcat(lems, g, AllWindows(n, open), Windows(n, w));
    }
  }

  lemma GrowLemmas(lems: LemTable, s0: set<nat>, s: set<nat>, open: seq<Phrase>, w: Phrase)
    requires OpenLemmas(lems, s0, open) && LemmasSeen(lems, s0, s, Windows(1, w))
    ensures OpenLemmas(lems, s, open + [w])
  {
    AllWindowsSnoc(1, open, w);
    forall l ensures LemmaSeen(lems, {}, s, AllWindows(1, open + [w]), l) {
      assert LemmaSeen(lems, {}, s0, AllWindows(1, open), l);
      assert LemmaSeen(lems, s0, s, Windows(1, w), l);
      OccursConcat(lems, [l], AllWindows(1, open), Windows(1, w));
    }
  }

  lemma NextDivision(corpus: seq<Phrase>, j: nat)
    requires j < |corpus|
    ensures var d, w := Divide(corpus[..j]), corpus[j];
            Divide(corpus[..j + 1]) ==
            if w == [] then Division(d.docs + [d.open], []) else Division(d.docs, d.open + [w])
  {
    assert corpus[..j + 1] == corpus[..j] + [corpus[j]];
    DivideSnoc(corpus[..j], corpus[j]);
  }

  /** `load_extended_trilems`, and the same for pairs: every group starts at zero. */
  method ZeroCounts(groups: seq<Group>) returns (m: CountMap)
    ensures forall g :: g in m <==> exists i :: 0 <= i < |groups| && groups[i].lids == g
    ensures forall g | g in m :: m[g] == 0
  {
    m := map[];
    for i := 0 to |groups|
      invariant forall g :: g in m <==> exists k :: 0 <= k < i && groups[k].lids == g
      invariant forall g | g in m :: m[g] == 0
    {
      if groups[i].lids !in m {
        m := m[groups[i].lids := 0];
      }
    }
  }

  /** Every phrase is divided among finished documents and the open one. */
  method CountPairDocs(corpus: seq<Phrase>, lems: LemTable, zero: CountMap) returns (uni: map<nat, u32>, bi: CountMap)
    requires Uniform(zero.Keys, 2) && forall g | g in zero :: zero[g] == 0
    ensures bi.Keys == zero.Keys && GramFrequencies(lems, bi, Divide(corpus).docs)
    ensures LemmaFrequencies(lems, uni, Divide(corpus).docs)
  {
    uni, bi := map[], zero;
    var uniset: set<nat>, biset: set<Gram> := {}, {};
    for j := 0 to |corpus|
      invariant bi.Keys == zero.Keys && GramFrequencies(lems, bi, Divide(corpus[..j]).docs)
      invariant LemmaFrequencies(lems, uni, Divide(corpus[..j]).docs)
      invariant OpenLemmas(lems, uniset, Divide(corpus[..j]).open)
      invariant OpenGrams(lems, bi.Keys, 2, biset, Divide(corpus[..j]).open)
    {
      ghost var d := Divide(corpus[..j]);
      NextDivision(corpus, j);
      var ids := corpus[j];
      if |ids| == 0 {
        ghost var uni0, bi0, u0, b0 := uni, bi, uniset, biset;
        uni, uniset := IncrementAll(uni, uniset);
        bi, biset := IncrementAll(bi, biset);
        CloseLemmas(lems, uni0, u0, uni, d.docs, d.open);
        CloseGrams(lems, 2, bi0, b0, bi, d.docs, d.open);
      } else {
        ghost var u0, b0 := uniset, biset;
        uniset, biset := ScanPairs(lems, ids, bi.Keys, uniset, biset);
        GrowLemmas(lems, u0, uniset, d.open, ids);
        GrowGrams(lems, bi.Keys, 2, b0, biset, d.open, ids);
      }
    }
    assert corpus[..|corpus|] == corpus;
  }

  method CountTripleDocs(corpus: seq<Phrase>, lems: LemTable, zero: CountMap) returns (tri: CountMap)
    requires Uniform(zero.Keys, 3) && forall g | g in zero :: zero[g] == 0
    ensures tri.Keys == zero.Keys && GramFrequencies(lems, tri, Divide(corpus).docs)
  {
    tri := zero;
    var triset: set<Gram> := {};
    for j := 0 to |corpus|
      invariant tri.Keys == zero.Keys && GramFrequencies(lems, tri, Divide(corpus[..j]).docs)
      invariant OpenGrams(lems, tri.Keys, 3, triset, Divide(corpus[..j]).open)
    {
      ghost var d := Divide(corpus[..j]);
      NextDivision(corpus, j);
      var ids := corpus[j];
      if |ids| == 0 {
        ghost var tri0, s0 := tri, triset;
        tri, triset := IncrementAll(tri, triset);
        CloseGrams(lems, 3, tri0, s0, tri, d.docs, d.open);
      } else {
        ghost var s0 := triset;
        triset := ScanTriples(lems, ids, tri.Keys, triset);
        GrowGrams(lems, tri.Keys, 3, s0, triset, d.open, ids);
      }
    }
    assert corpus[..|corpus|] == corpus;
  }
}
