/** `bigram_stat` and `trigram_stat` of src/colloc.cpp: counting chunk by chunk. */
module Counting {
  import opened Orders
  import opened Bags
  import opened Products
  import opened Corpus
  import opened Tables
  import opened GroupBy

  type CountMap = map<Gram, u32>

  /** The entry of `k` is its multiplicity in `bag`. */
  ghost predicate HasTally(m: CountMap, bag: multiset<Gram>, k: Gram) {
    (k in m <==> k in bag) && (k in m ==> m[k] == U32(bag[k]))
  }

  ghost predicate Tallies(m: CountMap, bag: multiset<Gram>) {
    forall k :: HasTally(m, bag, k)
  }

  /** `try_emplace(k, 0)` and `second++`. */
  function Increment(m: CountMap, k: Gram): CountMap {
    var n: nat := if k in m then m[k] else 0;
    m[k := U32(n + 1)]
  }

  lemma IncrementTallies(m: CountMap, bag: multiset<Gram>, g: Gram)
    requires Tallies(m, bag)
    ensures Tallies(Increment(m, g), bag + multiset{g})
  {
    U32Add(bag[g], 1);
    forall k ensures HasTally(Increment(m, g), bag + multiset{g}, k) {
      assert HasTally(m, bag, k);
    }
  }

  // sort_map, save_bi, save_tri -----------------------------------------------------

  /** `operator<` of pairs of a key and a count. */
  predicate PairLess(a: Count, b: Count) {
    GramMore(b.key, a.key) || (a.key == b.key && a.weight < b.weight)
  }

  lemma PairLessOrder()
    ensures StrictWeakOrder(PairLess)
  {
    forall a, b ensures PairLess(a, b) ==> !PairLess(b, a) {
      GramMoreAsymmetric(a.key, b.key);
      GramMoreAsymmetric(a.key, a.key);
    }
    forall a: Count, b: Count, c: Count | Chain(a, b, c) && !PairLess(a, b) && !PairLess(b, c)
      ensures !PairLess(a, c)
    {
      GramMoreNegTransitive(c.key, b.key, a.key);
      if a.key == c.key {
        if GramMore(a.key, b.key) {
          GramMoreAsymmetric(a.key, b.key);
        } else {
          GramMoreLinear(a.key, b.key);
        }
      }
    }
  }

  /** `t` lists the entries of `m` in ascending order. */
  ghost predicate Lists(t: seq<Count>, m: CountMap) {
    && KeysAscend(t)
    && (forall k :: HasKey(t, k) <==> k in m)
    && (forall c | c in t :: c.key in m && c.weight == m[c.key])
  }

  /** The vector of `sort_map` before it is sorted. */
  method ListEntries(m: CountMap) returns (v: seq<Count>)
    ensures DistinctKeys(v)
    ensures forall k :: HasKey(v, k) <==> k in m
    ensures forall c | c in v :: c.key in m && c.weight == m[c.key]
  {
    var keys := m.Keys;
    v := [];
    while keys != {}
      invariant keys <= m.Keys && DistinctKeys(v)
      invariant forall k :: HasKey(v, k) <==> k in m && k !in keys
      invariant forall c | c in v :: c.key in m && c.weight == m[c.key]
      decreases |keys|
    {
      var k :| k in keys;
      AppendKey(v, Count(k, m[k]));
      v := v + [Count(k, m[k])];
      keys := keys - {k};
    }
  }

  /** `save_bi` and `save_tri`: the file written for a map, which is cleared. */
  method SaveCounts(m: CountMap) returns (t: seq<Count>, cleared: CountMap)
    ensures Lists(t, m) && cleared == map[]
  {
    cleared := map[];
    var v := ListEntries(m);
    PairLessOrder();
    t := Sort(PairLess, v);
    SortedTable(v, t);
    forall k ensures HasKey(t, k) <==> k in m {
      HasKeyPermutes(v, t, k);
    }
    forall c | c in t ensures c.key in m && c.weight == m[c.key] {
      assert c in multiset(t);
    }
  }

  /** A map that tallies a bag is saved as the table of the bag. */
  lemma SavedTally(t: seq<Count>, m: CountMap, bag: multiset<Gram>)
    requires Lists(t, m) && Tallies(m, bag)
    ensures IsCountTable(t, bag)
  {
    AscendingIsDistinct(t);
    forall k ensures HasKey(t, k) <==> k in bag {
      assert HasTally(m, bag, k);
    }
    forall c | c in t ensures c.weight == U32(bag[c.key]) {
      assert HasTally(m, bag, c.key);
    }
  }

  lemma AppendKey(v: seq<Count>, c: Count)
    ensures forall k :: HasKey(v + [c], k) <==> HasKey(v, k) || k == c.key
    ensures DistinctKeys(v) && !HasKey(v, c.key) ==> DistinctKeys(v + [c])
  {
    forall k ensures HasKey(v + [c], k) <==> HasKey(v, k) || k == c.key {
      HasKeyConcat(v, [c], k);
      assert HasKey([c], k) <==> [c][0].key == k;
    }
  }

  lemma HasKeyPermutes(v: seq<Count>, t: seq<Count>, k: Gram)
    requires multiset(t) == multiset(v)
    ensures HasKey(t, k) <==> HasKey(v, k)
  {
    HasKeyIff(v, k);
    HasKeyIff(t, k);
    assert forall x :: x in t <==> x in multiset(t);
    assert forall x :: x in v <==> x in multiset(v);
  }

  /** A sorted listing of distinct keys has them in ascending order. */
  lemma SortedTable(v: seq<Count>, t: seq<Count>)
    requires DistinctKeys(v) && multiset(t) == multiset(v) && SortedBy(PairLess, t)
    ensures KeysAscend(t)
  {
    forall i, j | 0 <= i < j < |t| ensures GramMore(t[j].key, t[i].key) {
      DistinctEntries(v, t, i, j);
      assert !PairLess(t[j], t[i]);
      if !GramMore(t[j].key, t[i].key) {
        GramMoreLinear(t[i].key, t[j].key);
      }
    }
  }

  lemma DistinctEntries(v: seq<Count>, t: seq<Count>, i: nat, j: nat)
    requires DistinctKeys(v) && multiset(t) == multiset(v) && i < j < |t|
    ensures t[i].key != t[j].key
  {
    assert t == t[..j] + [t[j]] + t[j + 1..];
    assert t[i] in t[..j];
    assert multiset(t) == multiset(t[..j]) + multiset{t[j]} + multiset(t[j + 1..]);
    if t[i] == t[j] {
      assert multiset(t)[t[j]] >= 2;
      OnceEach(v, t[j]);
    } else {
      assert t[i] in multiset(v) && t[j] in multiset(v);
    }
  }

  lemma {:induction false} OnceEach(v: seq<Count>, c: Count)
    requires DistinctKeys(v)
    ensures multiset(v)[c] <= 1
  {
    if v != [] {
      var n := |v| - 1;
      assert v == v[..n] + [v[n]];
      OnceEach(v[..n], c);
      assert v[n] !in v[..n];
    }
  }

  // bigram_stat ---------------------------------------------------------------------

  /** The pairs of adjacent words of one phrase. */
  method CountPairs(bis: CountMap, ids: Phrase, ghost bag: multiset<Gram>) returns (m: CountMap)
    requires Tallies(bis, bag)
    ensures Tallies(m, bag + multiset(Windows(2, ids)))
  {
    m := bis;
    assert bag + multiset([]) == bag;
    var it := 1;
    while it < |ids|
      invariant 1 <= it && (|ids| > 0 ==> it <= |ids|)
      invariant |ids| > 0 ==> Tallies(m, bag + multiset(WindowsTo(2, ids, it - 1)))
      invariant |ids| == 0 ==> m == bis
    {
      var pair := [ids[it - 1], ids[it]];
      assert pair == Window(2, ids, it - 1);
      ghost var seen := WindowsTo(2, ids, it - 1);
      IncrementTallies(m, bag + multiset(seen), pair);
      assert bag + multiset(seen + [pair]) == bag + multiset(seen) + multiset{pair};
      m := Increment(m, pair);
      it := it + 1;
    }
  }

  /** What `glob` returns: the files in any order. */
  ghost predicate Shuffles(glob: seq<seq<Count>> -> seq<seq<Count>>) {
    forall files :: multiset(glob(files)) == multiset(files)
  }

  /** Part files and the map in memory together cover the phrases read so far. */
  ghost predicate Chunked(parts: seq<seq<Count>>, bags: seq<multiset<Gram>>, cur: multiset<Gram>, all: multiset<Gram>) {
    && |parts| == |bags|
    && (forall i | 0 <= i < |parts| :: IsCountTable(parts[i], bags[i]))
    && Gather(Itself, bags) + cur == all
  }

  lemma SaveChunk(
    parts: seq<seq<Count>>, bags: seq<multiset<Gram>>, cur: multiset<Gram>, all: multiset<Gram>, part: seq<Count>)
    requires Chunked(parts, bags, cur, all) && IsCountTable(part, cur)
    ensures Chunked(parts + [part], bags + [cur], multiset{}, all)
  {
    GatherSnoc(Itself, bags, cur);
    var parts', bags' := parts + [part], bags + [cur];
    forall i | 0 <= i < |parts'| ensures IsCountTable(parts'[i], bags'[i]) {
      assert i < |parts| ==> IsCountTable(parts[i], bags[i]);
    }
  }

  lemma GrowChunk(
    parts: seq<seq<Count>>, bags: seq<multiset<Gram>>, cur: multiset<Gram>, all: multiset<Gram>,
    more: multiset<Gram>, now: multiset<Gram>)
    requires Chunked(parts, bags, cur, all) && now == all + more
    ensures Chunked(parts, bags, cur + more, now)
  {
  }

  lemma AdmitNext(kept: set<Gram>, corpus: seq<Phrase>, j: nat)
    requires j < |corpus|
    ensures multiset(Admit(kept, AllWindows(3, corpus[..j + 1]))) ==
            multiset(Admit(kept, AllWindows(3, corpus[..j]))) + multiset(Admit(kept, Windows(3, corpus[j])))
  {
    NextPhrase(3, corpus, j);
    AdmitConcat(kept, AllWindows(3, corpus[..j]), Windows(3, corpus[j]));
  }

  /** After `docs` documents, a part has been saved for every `chunkDocs` of them. The document
      number has 32 bits, so this holds of fewer than 2^32 documents. */
  ghost predicate InChunks(docs: nat, docid: u32, chunks: nat, chunkDocs: nat) {
    && docid == U32(docs + 1)
    && (docs < 0x1_0000_0000 ==> MulNat(chunks, chunkDocs) <= docs < MulNat(chunks, chunkDocs) + chunkDocs)
  }

  /** Part files for `docs` documents: one for every `chunkDocs` of them and one for the rest. */
  ghost predicate SavedChunks(saved: nat, docs: nat, chunkDocs: nat) {
    docs < 0x1_0000_0000 ==> saved > 0 && MulNat(saved - 1, chunkDocs) <= docs < MulNat(saved, chunkDocs)
  }

  /** So their number is the quotient and one more. */
  lemma ChunksAreQuotient(saved: nat, docs: nat, chunkDocs: nat)
    requires chunkDocs > 0 && docs < 0x1_0000_0000 && SavedChunks(saved, docs, chunkDocs)
    ensures saved == docs / chunkDocs + 1
  {
    var k := saved - 1;
    MulSuccessor(k, chunkDocs);
    assert docs == docs / chunkDocs * chunkDocs + docs % chunkDocs;
    SameQuotient(k, docs - MulNat(k, chunkDocs), docs / chunkDocs, docs % chunkDocs, chunkDocs);
  }

  lemma FirstChunk(chunkDocs: nat)
    requires chunkDocs > 0
    ensures InChunks(0, 1, 0, chunkDocs)
  {
    MulZero(chunkDocs);
  }

  lemma NextChunk(docs: nat, docid: u32, chunks: nat, after: nat, chunkDocs: nat)
    requires chunkDocs > 0 && InChunks(docs, docid, chunks, chunkDocs)
    requires after == if docid % chunkDocs == 0 then chunks + 1 else chunks
    ensures InChunks(docs + 1, U32(docid + 1), after, chunkDocs)
  {
    U32Add(docs + 1, 1);
    if docs + 1 < 0x1_0000_0000 {
      var r := docs + 1 - MulNat(chunks, chunkDocs);
      MulSuccessor(chunks, chunkDocs);
      if r < chunkDocs {
        RemainderOfMultiple(chunks, chunkDocs, r);
      } else {
        RemainderOfMultiple(chunks + 1, chunkDocs, 0);
      }
    }
  }

  /** The end of a document: after every `chunkDocs` of them the map is saved and cleared. */
  method EndDocument(
    docid: u32, chunkDocs: nat, m: CountMap, parts: seq<seq<Count>>,
    ghost bags: seq<multiset<Gram>>, ghost cur: multiset<Gram>, ghost all: multiset<Gram>, ghost docs: nat)
    returns (next: u32, rest: CountMap, more: seq<seq<Count>>,
             ghost saved: seq<multiset<Gram>>, ghost left: multiset<Gram>)
    requires chunkDocs > 0 && Tallies(m, cur) && Chunked(parts, bags, cur, all)
    requires InChunks(docs, docid, |parts|, chunkDocs)
    ensures InChunks(docs + 1, next, |more|, chunkDocs)
    ensures next == U32(docid + 1) && Tallies(rest, left) && Chunked(more, saved, left, all)
    ensures if docid % chunkDocs == 0
            then rest == map[] && |more| == |parts| + 1 && more[..|parts|] == parts && Lists(more[|parts|], m)
            else rest == m && more == parts
  {
    rest, more, saved, left := m, parts, bags, cur;
    if docid % chunkDocs == 0 {
      var part;
      part, rest := SaveCounts(m);
      SavedTally(part, m, cur);
      SaveChunk(parts, bags, cur, all, part);
      more := parts + [part];
      saved, left := bags + [cur], multiset{};
    }
    next := U32(docid + 1);
    NextChunk(docs, docid, |parts|, |more|, chunkDocs);
  }

  /** The number of documents after one more phrase. */
  lemma NextDocs(corpus: seq<Phrase>, j: nat)
    requires j < |corpus|
    ensures |Divide(corpus[..j + 1]).docs| == |Divide(corpus[..j]).docs| + if corpus[j] == [] then 1 else 0
  {
    assert corpus[..j + 1] == corpus[..j] + [corpus[j]];
    DivideSnoc(corpus[..j], corpus[j]);
  }

  /** Merging the parts, in whatever order they are listed, gives the table of everything. */
  method MergeParts(
    parts: seq<seq<Count>>, glob: seq<seq<Count>> -> seq<seq<Count>>,
    ghost bags: seq<multiset<Gram>>, ghost all: multiset<Gram>)
    returns (out: seq<Count>)
    requires Shuffles(glob) && Chunked(parts, bags, multiset{}, all)
    ensures IsCountTable(out, all)
  {
    var paths := glob(parts);
    assert multiset(paths) == multiset(parts);
    forall p | p in paths ensures Sorted(CountMore, p) {
      assert p in multiset(parts);
      var i :| 0 <= i < |parts| && parts[i] == p;
      assert IsCountTable(parts[i], bags[i]);
      AscendingIsSorted(p);
    }
    out := MergeFiles(paths);
    RecordsPermute(paths, parts);
    TotalsPermute(out, Concat(paths), Concat(parts));
    MergedChunks(out, parts, bags);
  }

  /** The end of `bigram_stat` and `trigram_stat`: what is in memory becomes the last part, and the
      parts are merged. */
  method SaveRest(
    m: CountMap, parts: seq<seq<Count>>, glob: seq<seq<Count>> -> seq<seq<Count>>,
    ghost bags: seq<multiset<Gram>>, ghost cur: multiset<Gram>, ghost all: multiset<Gram>)
    returns (out: seq<Count>)
    requires Shuffles(glob) && Tallies(m, cur) && Chunked(parts, bags, cur, all)
    ensures IsCountTable(out, all)
  {
    var part, _ := SaveCounts(m);
    SavedTally(part, m, cur);
    SaveChunk(parts, bags, cur, all, part);
    out := MergeParts(parts + [part], glob, bags + [cur], all);
  }

  /** `bigram_stat`; the source has 40'000 for `chunkDocs`. `saved` is the number of part files. */
  method BigramStat(corpus: seq<Phrase>, chunkDocs: nat, glob: seq<seq<Count>> -> seq<seq<Count>>)
    returns (bi: seq<Count>, ghost saved: nat)
    requires chunkDocs > 0 && Shuffles(glob)
    ensures IsCountTable(bi, multiset(AllWindows(2, corpus)))
    ensures forall i | 0 <= i < |bi| :: |bi[i].key| == 2
    ensures forall i, j | 0 <= i < j < |bi| ::
              bi[i].key[0] < bi[j].key[0] || (bi[i].key[0] == bi[j].key[0] && bi[i].key[1] < bi[j].key[1])
    ensures SavedChunks(saved, |Divide(corpus).docs|, chunkDocs)
  {
    var bis: CountMap, docid: u32, parts := map[], 1, [];
    ghost var bags, cur := [], multiset{};
    FirstChunk(chunkDocs);
    for j := 0 to |corpus|
      invariant InChunks(|Divide(corpus[..j]).docs|, docid, |parts|, chunkDocs)
      invariant Tallies(bis, cur)
      invariant Chunked(parts, bags, cur, multiset(AllWindows(2, corpus[..j])))
    {
      var ids := corpus[j];
      NextDocs(corpus, j);
      if |ids| == 0 {
        docid, bis, parts, bags, cur :=
          EndDocument(docid, chunkDocs, bis, parts, bags, cur, multiset(AllWindows(2, corpus[..j])),
                      |Divide(corpus[..j]).docs|);
      }
      bis := CountPairs(bis, ids, cur);
      NextPhrase(2, corpus, j);
      GrowChunk(parts, bags, cur, multiset(AllWindows(2, corpus[..j])),
                multiset(Windows(2, ids)), multiset(AllWindows(2, corpus[..j + 1])));
      cur := cur + multiset(Windows(2, ids));
    }
    assert corpus[..|corpus|] == corpus;
    saved := |parts| + 1;
    bi := SaveRest(bis, parts, glob, bags, cur, multiset(AllWindows(2, corpus)));
    WindowsHaveLength(2, corpus);
    KeyInBag(bi, multiset(AllWindows(2, corpus)), 2);
    PairsAscend(bi);
  }

  lemma NextPhrase(n: nat, corpus: seq<Phrase>, j: nat)
    requires j < |corpus|
    ensures AllWindows(n, corpus[..j + 1]) == AllWindows(n, corpus[..j]) + Windows(n, corpus[j])
  {
    assert corpus[..j + 1][..j] == corpus[..j];
  }

  // trigram_stat ----------------------------------------------------------------------

  /** One of the two pairs of words in the triple is kept. */
  predicate Admitted(kept: set<Gram>, g: Gram) {
    |g| == 3 && (g[..2] in kept || g[1..] in kept)
  }

  ghost function Admit(kept: set<Gram>, grams: seq<Gram>): seq<Gram> {
    if grams == [] then []
    else
      var g := grams[|grams| - 1];
      Admit(kept, grams[..|grams| - 1]) + if Admitted(kept, g) then [g] else []
  }

  lemma AdmitSnoc(kept: set<Gram>, grams: seq<Gram>, g: Gram)
    ensures Admit(kept, grams + [g]) == Admit(kept, grams) + if Admitted(kept, g) then [g] else []
  {
    assert (grams + [g])[..|grams|] == grams;
  }

  lemma {:induction false} AdmitConcat(kept: set<Gram>, s: seq<Gram>, t: seq<Gram>)
    ensures Admit(kept, s + t) == Admit(kept, s) + Admit(kept, t)
    decreases |t|
  {
    if t == [] {
      assert s + t == s;
    } else {
      var n := |t| - 1;
      assert s + t == (s + t[..n]) + [t[n]];
      AdmitSnoc(kept, s + t[..n], t[n]);
      AdmitConcat(kept, s, t[..n]);
    }
  }

  /** Admitting keeps or drops a triple with all its occurrences. */
  lemma {:induction false} AdmitCounts(kept: set<Gram>, grams: seq<Gram>, g: Gram)
    ensures multiset(Admit(kept, grams))[g] == if Admitted(kept, g) then multiset(grams)[g] else 0
  {
    if grams != [] {
      var n := |grams| - 1;
      assert grams == grams[..n] + [grams[n]];
      AdmitCounts(kept, grams[..n], g);
    }
  }

  /** The pair of words that starts at `i` is kept. */
  predicate Hit(kept: set<Gram>, w: Phrase, i: nat)
    requires i + 2 <= |w|
  {
    [w[i], w[i + 1]] in kept
  }

  /** What the scan has counted when it comes to the pair at `i`: the admitted windows that
      start before `i - 1`, and the window at `i - 1` if only its first pair is kept so far. */
  ghost function Seen(kept: set<Gram>, w: Phrase, i: nat): seq<Gram>
    requires i + 1 <= |w|
  {
    if i == 0 then []
    else
      Admit(kept, WindowsTo(3, w, i - 1)) + if i + 2 <= |w| && Hit(kept, w, i - 1) then [Window(3, w, i - 1)] else []
  }

  /** The window at `i - 1` is admitted by its first or by its second pair. */
  lemma AdmitWindow(kept: set<Gram>, w: Phrase, i: nat)
    requires 0 < i && i + 2 <= |w|
    ensures Admit(kept, WindowsTo(3, w, i)) == Admit(kept, WindowsTo(3, w, i - 1))
              + if Hit(kept, w, i - 1) || Hit(kept, w, i) then [Window(3, w, i - 1)] else []
  {
    var g := Window(3, w, i - 1);
    AdmitSnoc(kept, WindowsTo(3, w, i - 1), g);
    assert g[..2] == [w[i - 1], w[i]] && g[1..] == [w[i], w[i + 1]];
  }

  /** The windows that the scan counts at the pair at `i`, `found` telling of the pair before. */
  ghost function Found(kept: set<Gram>, w: Phrase, i: nat, found: bool): multiset<Gram>
    requires i + 2 <= |w|
  {
    (if Hit(kept, w, i) && !found && i > 0 then multiset{Window(3, w, i - 1)} else multiset{})
    + (if Hit(kept, w, i) && i + 2 < |w| then multiset{Window(3, w, i)} else multiset{})
  }

  ghost function Single(b: bool, g: Gram): multiset<Gram> {
    if b then multiset{g} else multiset{}
  }

  lemma AdmitWindowBag(kept: set<Gram>, w: Phrase, i: nat)
    requires 0 < i && i + 2 <= |w|
    ensures multiset(Admit(kept, WindowsTo(3, w, i))) ==
            multiset(Admit(kept, WindowsTo(3, w, i - 1)))
            + Single(Hit(kept, w, i - 1) || Hit(kept, w, i), Window(3, w, i - 1))
  {
    AdmitWindow(kept, w, i);
  }

  lemma SeenBag(kept: set<Gram>, w: Phrase, i: nat)
    requires 0 < i && i + 1 <= |w|
    ensures multiset(Seen(kept, w, i)) ==
            multiset(Admit(kept, WindowsTo(3, w, i - 1)))
            + if i + 2 <= |w| then Single(Hit(kept, w, i - 1), Window(3, w, i - 1)) else multiset{}
  {
  }

  lemma SeenStep(kept: set<Gram>, w: Phrase, i: nat, found: bool)
    requires i + 2 <= |w| && (found <==> i > 0 && Hit(kept, w, i - 1))
    ensures multiset(Seen(kept, w, i + 1)) == multiset(Seen(kept, w, i)) + Found(kept, w, i, found)
  {
    SeenBag(kept, w, i + 1);
    if i > 0 {
      SeenBag(kept, w, i);
      AdmitWindowBag(kept, w, i);
    }
  }

  lemma SeenMore(kept: set<Gram>, w: Phrase, i: nat, found: bool, bag: multiset<Gram>)
    requires i + 2 <= |w| && (found <==> i > 0 && Hit(kept, w, i - 1))
    ensures bag + multiset(Seen(kept, w, i + 1)) == bag + multiset(Seen(kept, w, i)) + Found(kept, w, i, found)
    ensures !Hit(kept, w, i) ==> bag + multiset(Seen(kept, w, i + 1)) == bag + multiset(Seen(kept, w, i))
  {
    SeenStep(kept, w, i, found);
  }

  lemma SeenAll(kept: set<Gram>, w: Phrase)
    requires w != []
    ensures Seen(kept, w, |w| - 1) == Admit(kept, Windows(3, w))
  {
  }

  /** The loop body of the scan for a kept pair at `it1`. */
  method CountAround(
    triples: CountMap, wids: Phrase, it1: nat, found: bool, ghost biwids: set<Gram>, ghost bag: multiset<Gram>)
    returns (m: CountMap)
    requires it1 + 2 <= |wids| && Hit(biwids, wids, it1) && Tallies(triples, bag)
    ensures Tallies(m, bag + Found(biwids, wids, it1, found))
  {
    m := triples;
    var it2 := it1 + 1;
    ghost var seen := bag;
    if !found && it1 != 0 {
      var g := [wids[it1 - 1], wids[it1], wids[it2]];
      assert g == Window(3, wids, it1 - 1);
      IncrementTallies(m, seen, g);
      m, seen := Increment(m, g), seen + multiset{g};
    }
    if it2 + 1 != |wids| {
      var g := [wids[it1], wids[it2], wids[it2 + 1]];
      assert g == Window(3, wids, it1);
      IncrementTallies(m, seen, g);
      m, seen := Increment(m, g), seen + multiset{g};
    }
    assert seen == bag + Found(biwids, wids, it1, found);
  }

  /** The flag-driven scan of one phrase counts every admitted window exactly once. */
  method CountTriples(triples: CountMap, wids: Phrase, biwids: set<Gram>, ghost bag: multiset<Gram>)
    returns (m: CountMap)
    requires Tallies(triples, bag)
    ensures Tallies(m, bag + multiset(Admit(biwids, Windows(3, wids))))
  {
    m := triples;
    assert bag + multiset([]) == bag;
    if |wids| == 0 {
      return;
    }
    var found, it1 := false, 0;
    while it1 + 1 < |wids|
      invariant it1 < |wids| && Tallies(m, bag + multiset(Seen(biwids, wids, it1)))
      invariant found <==> it1 > 0 && Hit(biwids, wids, it1 - 1)
    {
      ghost var seen := bag + multiset(Seen(biwids, wids, it1));
      SeenMore(biwids, wids, it1, found, bag);
      if [wids[it1], wids[it1 + 1]] !in biwids {
        found := false;
      } else {
        m := CountAround(m, wids, it1, found, biwids, seen);
        found := true;
      }
      it1 := it1 + 1;
    }
    SeenAll(biwids, wids);
  }

  lemma AdmittedLength(t: seq<Count>, kept: set<Gram>, grams: seq<Gram>)
    requires Tabulates(t, multiset(Admit(kept, grams)))
    ensures forall i | 0 <= i < |t| :: |t[i].key| == 3
  {
    forall g | g in multiset(Admit(kept, grams)) ensures |g| == 3 {
      AdmitCounts(kept, grams, g);
    }
    KeyInBag(t, multiset(Admit(kept, grams)), 3);
  }

  /** `trigram_stat` with the kept pairs `biwids`. */
  method TrigramStat(
    corpus: seq<Phrase>, biwids: set<Gram>, chunkDocs: nat, glob: seq<seq<Count>> -> seq<seq<Count>>)
    returns (tri: seq<Count>, ghost saved: nat)
    requires chunkDocs > 0 && Shuffles(glob)
    ensures IsCountTable(tri, multiset(Admit(biwids, AllWindows(3, corpus))))
    ensures forall i | 0 <= i < |tri| :: |tri[i].key| == 3
    ensures forall i, j | 0 <= i < j < |tri| ::
              tri[i].key[0] < tri[j].key[0]
              || (tri[i].key[0] == tri[j].key[0]
                  && (tri[i].key[1] < tri[j].key[1] || (tri[i].key[1] == tri[j].key[1] && tri[i].key[2] < tri[j].key[2])))
    ensures SavedChunks(saved, |Divide(corpus).docs|, chunkDocs)
  {
    var triples: CountMap, docid: u32, parts := map[], 1, [];
    ghost var bags, cur := [], multiset{};
    FirstChunk(chunkDocs);
    for j := 0 to |corpus|
      invariant InChunks(|Divide(corpus[..j]).docs|, docid, |parts|, chunkDocs)
      invariant Tallies(triples, cur)
      invariant Chunked(parts, bags, cur, multiset(Admit(biwids, AllWindows(3, corpus[..j]))))
    {
      var wids := corpus[j];
      NextDocs(corpus, j);
      if |wids| == 0 {
        docid, triples, parts, bags, cur :=
          EndDocument(docid, chunkDocs, triples, parts, bags, cur, multiset(Admit(biwids, AllWindows(3, corpus[..j]))),
                      |Divide(corpus[..j]).docs|);
      }
      triples := CountTriples(triples, wids, biwids, cur);
      AdmitNext(biwids, corpus, j);
      GrowChunk(parts, bags, cur, multiset(Admit(biwids, AllWindows(3, corpus[..j]))),
                multiset(Admit(biwids, Windows(3, wids))), multiset(Admit(biwids, AllWindows(3, corpus[..j + 1]))));
      cur := cur + multiset(Admit(biwids, Windows(3, wids)));
    }
    assert corpus[..|corpus|] == corpus;
    saved := |parts| + 1;
    tri := SaveRest(triples, parts, glob, bags, cur, multiset(Admit(biwids, AllWindows(3, corpus))));
    AdmittedLength(tri, biwids, AllWindows(3, corpus));
    TriplesAscend(tri);
  }
}
