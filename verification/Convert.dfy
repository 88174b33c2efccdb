/** `UnigramCounts` and `convert` of src/colloc.cpp: words become ids, documents become
    phrases. */
module Convert {
  import opened Wrappers
  import opened Orders
  import opened Bags
  import opened Corpus
  import opened Tables

  datatype UniVal = UniVal(id: nat, weight: u32)

  ghost predicate HasNumber(words: map<Word, UniVal>, names: seq<Word>, i: nat)
    requires i < |names|
  {
    names[i] in words && words[names[i]].id == i + 1
  }

  /** `names` lists the keys of `words` in the order of their ids 1, 2, ... */
  ghost predicate Numbered(words: map<Word, UniVal>, names: seq<Word>) {
    && |words| == |names|
    && (forall i | 0 <= i < |names| :: HasNumber(words, names, i))
    && (forall w | w in words :: w in names)
  }

  /** The weight of `w` is its number of occurrences in `seen`. */
  ghost predicate HasWeight(words: map<Word, UniVal>, seen: multiset<Word>, w: Word) {
    (w in words <==> w in seen) && (w in words ==> words[w].weight == U32(seen[w]))
  }

  ghost predicate Counted(words: map<Word, UniVal>, seen: multiset<Word>) {
    forall w :: HasWeight(words, seen, w)
  }

  /** `ids` are the numbers of `ws`. */
  ghost predicate Spells(names: seq<Word>, ids: Phrase, ws: seq<Word>) {
    && |ids| == |ws|
    && forall k | 0 <= k < |ids| :: 1 <= ids[k] <= |names| && names[ids[k] - 1] == ws[k]
  }

  ghost predicate SpellsAll(names: seq<Word>, stream: seq<Phrase>, text: seq<seq<Word>>) {
    && |stream| == |text|
    && forall i {:trigger Spells(names, stream[i], text[i])} | 0 <= i < |stream| ::
         Spells(names, stream[i], text[i])
  }

  /** `try_emplace` with the next number, and one more occurrence. */
  function Added(words: map<Word, UniVal>, w: Word): map<Word, UniVal> {
    words[w := if w in words then UniVal(words[w].id, U32(words[w].weight + 1)) else UniVal(|words| + 1, 1)]
  }

  ghost function Named(words: map<Word, UniVal>, names: seq<Word>, w: Word): seq<Word> {
    if w in words then names else names + [w]
  }

  /** The table agrees with the phrases written and with the words not written yet. */
  ghost predicate Agrees(
    words: map<Word, UniVal>, names: seq<Word>, stream: seq<Phrase>, text: seq<seq<Word>>, pending: seq<Word>)
  {
    && Numbered(words, names)
    && Counted(words, Records(text) + multiset(pending))
    && SpellsAll(names, stream, text)
    && names == Firsts(Concat(text) + pending)
  }

  lemma CountedOne(words: map<Word, UniVal>, seen: multiset<Word>, w: Word)
    requires Counted(words, seen)
    ensures Counted(Added(words, w), seen + multiset{w})
  {
    U32Add(seen[w], 1);
    forall v ensures HasWeight(Added(words, w), seen + multiset{w}, v) {
      assert HasWeight(words, seen, v);
    }
  }

  /** What counting `w` does to the numbering: nothing, or one more name at the end. */
  lemma NumberedOne(words: map<Word, UniVal>, names: seq<Word>, w: Word)
    requires Numbered(words, names)
    ensures Numbered(Added(words, w), Named(words, names, w))
  {
    var after, more := Added(words, w), Named(words, names, w);
    if w in words {
      assert after.Keys == words.Keys;
      assert |after| == |after.Keys| == |words.Keys| == |words|;
    }
    forall i | 0 <= i < |more| ensures HasNumber(after, more, i) {
      assert i < |names| ==> HasNumber(words, names, i);
    }
  }

  lemma SpellsMore(names: seq<Word>, more: seq<Word>, stream: seq<Phrase>, text: seq<seq<Word>>)
    requires SpellsAll(names, stream, text) && names <= more
    ensures SpellsAll(more, stream, text)
  {
    assert forall j | 0 <= j < |names| :: names[j] == more[j];
    forall i | 0 <= i < |stream| ensures Spells(more, stream[i], text[i]) {
      assert Spells(names, stream[i], text[i]);
    }
  }

  /** New words get the next numbers, so numbers follow the order in which words come first. */
  lemma NamedInOrder(words: map<Word, UniVal>, names: seq<Word>, before: seq<Word>, pending: seq<Word>, w: Word)
    requires Numbered(words, names) && names == Firsts(before + pending)
    ensures Named(words, names, w) == Firsts(before + (pending + [w]))
  {
    FirstsSnoc(before + pending, w);
    Regroup(before, pending, [w]);
    if w in names {
      var i :| 0 <= i < |names| && names[i] == w;
      assert HasNumber(words, names, i);
    }
  }

  lemma AddedAgrees(
    words: map<Word, UniVal>, names: seq<Word>, stream: seq<Phrase>, text: seq<seq<Word>>, pending: seq<Word>, w: Word,
    after: map<Word, UniVal>, more: seq<Word>)
    requires Agrees(words, names, stream, text, pending)
    requires after == Added(words, w) && more == Named(words, names, w)
    ensures names <= more && Agrees(after, more, stream, text, pending + [w])
    ensures w in after && 1 <= after[w].id <= |more| && more[after[w].id - 1] == w
  {
    CountedOne(words, Records(text) + multiset(pending), w);
    NumberedOne(words, names, w);
    SpellsMore(names, more, stream, text);
    assert Records(text) + multiset(pending) + multiset{w} == Records(text) + multiset(pending + [w]);
    NamedInOrder(words, names, Concat(text), pending, w);
    var i :| 0 <= i < |more| && more[i] == w;
    assert HasNumber(after, more, i);
  }

  lemma WrittenAgrees(
    words: map<Word, UniVal>, names: seq<Word>, stream: seq<Phrase>, text: seq<seq<Word>>, ids: Phrase, ws: seq<Word>)
    requires Agrees(words, names, stream, text, ws) && Spells(names, ids, ws)
    ensures Agrees(words, names, stream + [ids], text + [ws], [])
  {
    GatherSnoc(Content, text, ws);
    assert Records(text + [ws]) + multiset([]) == Records(text) + multiset(ws);
    assert (text + [ws])[..|text|] == text;
    assert Concat(text + [ws]) + [] == Concat(text) + ws;
    var after, spelled := stream + [ids], text + [ws];
    forall i | 0 <= i < |after| ensures Spells(names, after[i], spelled[i]) {
      assert i < |stream| ==> Spells(names, stream[i], text[i]);
    }
  }

  lemma SpellsOne(names: seq<Word>, more: seq<Word>, ids: Phrase, ws: seq<Word>, id: nat, w: Word)
    requires Spells(names, ids, ws) && names <= more
    requires 1 <= id <= |more| && more[id - 1] == w
    ensures Spells(more, ids + [id], ws + [w])
  {
  }

  lemma StillEmpty(lower: seq<nat> -> Word, s: RunState, t: Token)
    ensures Close(AfterToken(lower, s, t)) == [] <==> Close(s) == [] && Accept(lower, t).None?
  {
  }

  class UnigramCounts {
    const lower: seq<nat> -> Word
    var words: map<Word, UniVal>
    /** corpus.bin. */
    var stream: seq<Phrase>
    /** The words by id, and the phrases spelled out. */
    ghost var names: seq<Word>
    ghost var text: seq<seq<Word>>

    ghost predicate Consistent(pending: seq<Word>)
      reads this
    {
      Agrees(words, names, stream, text, pending)
    }

    ghost predicate Valid()
      reads this
    {
      Consistent([])
    }

    constructor (lower: seq<nat> -> Word)
      ensures Valid() && stream == [] && text == [] && this.lower == lower
    {
      this.lower := lower;
      words := map[];
      stream := [];
      names, text := [], [];
    }

    /** `update_word`. */
    method UpdateWord(t: Token, ghost pending: seq<Word>) returns (id: Option<nat>)
      requires Consistent(pending)
      modifies this`words, this`names
      ensures id.None? <==> Accept(lower, t).None?
      ensures id.None? ==> words == old(words) && names == old(names)
      ensures id.Some? ==>
                && old(names) <= names
                && Consistent(pending + [Accept(lower, t).value])
                && 1 <= id.value <= |names| && names[id.value - 1] == Accept(lower, t).value
    {
      var w := Accept(lower, t);
      if w.None? {
        return None;
      }
      var n := CountWord(w.value, pending);
      id := Some(n);
    }

    /** The word is counted, with the next number if it is new. */
    method CountWord(w: Word, ghost pending: seq<Word>) returns (id: nat)
      requires Consistent(pending)
      modifies this`words, this`names
      ensures old(names) <= names && Consistent(pending + [w])
      ensures words == Added(old(words), w)
      ensures 1 <= id <= |names| && names[id - 1] == w
    {
      ghost var more := Named(words, names, w);
      var after := Added(words, w);
      AddedAgrees(words, names, stream, text, pending, w, after, more);
      words, names := after, more;
      id := after[w].id;
    }

    /** `write_phrase`. */
    method WritePhrase(ids: Phrase, ghost ws: seq<Word>)
      requires Consistent(ws) && Spells(names, ids, ws)
      modifies this`stream, this`text
      ensures Valid() && text == old(text) + [ws]
    {
      WrittenAgrees(words, names, stream, text, ids, ws);
      stream, text := stream + [ids], text + [ws];
    }

    /** The current phrase is written unless it is empty. */
    method Flush(ids: Phrase, ghost ws: seq<Word>)
      requires Consistent(ws) && Spells(names, ids, ws)
      modifies this`stream, this`text
      ensures Valid() && text == old(text) + Piece(ws)
    {
      if |ids| > 0 {
        WritePhrase(ids, ws);
      } else {
        assert text + [] == text;
      }
    }

    /** The loop body of `update`: `ids` is the current phrase and `s` what it stands for. */
    method UpdateToken(t: Token, ids: Phrase, ghost s: RunState, ghost base: seq<seq<Word>>)
      returns (rest: Phrase, accepted: bool)
      requires Consistent(s.cur) && Spells(names, ids, s.cur) && text == base + s.closed
      modifies this`words, this`names, this`stream, this`text
      ensures old(names) <= names
      ensures var s' := AfterToken(lower, s, t);
              Consistent(s'.cur) && Spells(names, rest, s'.cur) && text == base + s'.closed
      ensures accepted <==> Accept(lower, t).Some?
    {
      ghost var before, s' := names, AfterToken(lower, s, t);
      var res := UpdateWord(t, s.cur);
      if res.None? {
        assert s' == RunState(Close(s), []);
        Flush(ids, s.cur);
        Regroup(base, s.closed, Piece(s.cur));
        rest := [];
      } else {
        assert s' == RunState(s.closed, s.cur + [Accept(lower, t).value]);
        SpellsOne(before, names, ids, s.cur, res.value, Accept(lower, t).value);
        rest := ids + [res.value];
      }
      accepted := res.Some?;
    }

    /** The end of `update`: the last phrase, and an empty one unless there were no words. */
    method Finish(ids: Phrase, empty: bool, ghost s: RunState, ghost base: seq<seq<Word>>)
      requires Consistent(s.cur) && Spells(names, ids, s.cur) && text == base + s.closed
      requires empty <==> Close(s) == []
      modifies this`stream, this`text
      ensures Valid() && text == base + if Close(s) == [] then [] else Close(s) + [[]]
    {
      Flush(ids, s.cur);
      Regroup(base, s.closed, Piece(s.cur));
      if !empty {
        WritePhrase([], []); // end of document
        Regroup(base, Close(s), [[]]);
      }
    }

    /** `update`. */
    method Update(doc: seq<Token>) returns (any: bool)
      requires Valid()
      modifies this
      ensures Valid() && old(names) <= names
      ensures text == old(text) + Encode(lower, doc)
      ensures any <==> RunsOfWords(lower, doc) != []
    {
      var ids: seq<nat>, empty := [], true;
      ghost var s, base := RunState([], []), text;
      for i := 0 to |doc|
        invariant old(names) <= names
        invariant Consistent(s.cur) && Spells(names, ids, s.cur)
        invariant s == Scan(lower, doc[..i]) && text == base + s.closed
        invariant empty <==> Close(s) == []
      {
        ScanNext(lower, doc, i);
        StillEmpty(lower, s, doc[i]);
        var accepted;
        ids, accepted := UpdateToken(doc[i], ids, s, base);
        s := AfterToken(lower, s, doc[i]);
        empty := empty && !accepted;
      }
      assert RunsOfWords(lower, doc) == Close(s) by {
        assert doc[..|doc|] == doc;
      }
      Finish(ids, empty, s, base);
      any := !empty;
    }
  }

  // convert and save_uni ------------------------------------------------------------------

  /** `Unigram`. */
  datatype Unigram = Unigram(str: Word, id: nat, weight: u32)

  /** `uni` lists the entries of `words`, in whatever order the hash map has them. */
  ghost predicate ListsWords(uni: seq<Unigram>, words: map<Word, UniVal>) {
    && |uni| == |words|
    && (forall i, j | 0 <= i < j < |uni| :: uni[i].str != uni[j].str)
    && (forall u | u in uni :: u.str in words && words[u.str] == UniVal(u.id, u.weight))
    && (forall w | w in words :: Unigram(w, words[w].id, words[w].weight) in uni)
  }

  /** `save_uni`. */
  method SaveUni(words: map<Word, UniVal>) returns (uni: seq<Unigram>)
    ensures ListsWords(uni, words)
  {
    uni := [];
    var keys := words.Keys;
    while keys != {}
      invariant keys <= words.Keys && |uni| + |keys| == |words.Keys|
      invariant forall i, j | 0 <= i < j < |uni| :: uni[i].str != uni[j].str
      invariant forall u | u in uni :: u.str in words && u.str !in keys && words[u.str] == UniVal(u.id, u.weight)
      invariant forall w | w in words && w !in keys :: Unigram(w, words[w].id, words[w].weight) in uni
      decreases |keys|
    {
      var w :| w in keys;
      uni := uni + [Unigram(w, words[w].id, words[w].weight)];
      keys := keys - {w};
    }
    assert |words.Keys| == |words|;
  }

  lemma NextDocument(lower: seq<nat> -> Word, docs: seq<seq<Token>>, i: nat)
    requires i < |docs|
    ensures EncodeAll(lower, docs[..i + 1]) == EncodeAll(lower, docs[..i]) + Encode(lower, docs[i])
    ensures |NonEmptyRuns(lower, docs[..i + 1])| ==
            |NonEmptyRuns(lower, docs[..i])| + if RunsOfWords(lower, docs[i]) == [] then 0 else 1
  {
    assert docs[..i + 1][..i] == docs[..i];
  }

  /** `convert`: the corpus, the unigrams and the number of documents. */
  method ConvertDocuments(lower: seq<nat> -> Word, docs: seq<seq<Token>>)
    returns (corpus: seq<Phrase>, uni: seq<Unigram>, total: nat, ghost names: seq<Word>, ghost words: map<Word, UniVal>)
    ensures Agrees(words, names, corpus, EncodeAll(lower, docs), [])
    ensures ListsWords(uni, words)
    ensures total == |Divide(EncodeAll(lower, docs)).docs|
  {
    var counts := new UnigramCounts(lower);
    total := 0;
    for i := 0 to |docs|
      invariant counts.Valid() && counts.text == EncodeAll(lower, docs[..i])
      invariant total == |NonEmptyRuns(lower, docs[..i])|
    {
      NextDocument(lower, docs, i);
      var any := counts.Update(docs[i]);
      total := total + if any then 1 else 0;
    }
    assert docs[..|docs|] == docs;
    EncodingRoundTrip(lower, docs);
    uni := SaveUni(counts.words);
    corpus, names, words := counts.stream, counts.names, counts.words;
  }

  // What the unigrams count ---------------------------------------------------------------

  /** The words of the documents, one after the other. */
  ghost function AllAccepted(lower: seq<nat> -> Word, docs: seq<seq<Token>>): seq<Word> {
    Concat(EncodeAll(lower, docs))
  }

  /** A word that comes up for the first time has a greater id than all words before it. */
  lemma WordsInOrder(
    words: map<Word, UniVal>, names: seq<Word>, stream: seq<Phrase>, text: seq<seq<Word>>, p: nat, q: nat)
    requires Agrees(words, names, stream, text, [])
    requires p < q < |Concat(text)| && Concat(text)[q] !in Concat(text)[..q]
    ensures Concat(text)[p] in words && Concat(text)[q] in words
    ensures words[Concat(text)[p]].id < words[Concat(text)[q]].id
  {
    var s := Concat(text);
    assert s + [] == s;
    FirstsInOrder(s);
    assert s[p] in names && s[q] in names;
    var i: nat :| i < |names| && names[i] == s[p];
    var j: nat :| j < |names| && names[j] == s[q];
    FirstIsLater(names, s, p, q, i, j);
    assert HasNumber(words, names, i) && HasNumber(words, names, j);
  }

  /** Different ids name different words. */
  lemma NamesDistinct(words: map<Word, UniVal>, names: seq<Word>)
    requires Numbered(words, names)
    ensures Distinct(names)
  {
    forall i, j | 0 <= i < j < |names| ensures names[i] != names[j] {
      assert HasNumber(words, names, i) && HasNumber(words, names, j);
    }
  }

  lemma LastCounts<T>(s: seq<T>, x: T)
    requires s != []
    ensures multiset(s)[x] == multiset(s[..|s| - 1])[x] + if x == s[|s| - 1] then 1 else 0
  {
    assert s == s[..|s| - 1] + [s[|s| - 1]];
  }

  /** Within a phrase an id occurs as often as its word. */
  lemma {:induction false} SpelledCount(names: seq<Word>, ids: Phrase, ws: seq<Word>, id: nat)
    requires Distinct(names) && Spells(names, ids, ws)
    ensures multiset(ids)[id] == if 1 <= id <= |names| then multiset(ws)[names[id - 1]] else 0
  {
    if ids != [] {
      var n := |ids| - 1;
      SpelledCount(names, ids[..n], ws[..n], id);
      LastCounts(ids, id);
      if 1 <= id <= |names| {
        LastCounts(ws, names[id - 1]);
      }
    }
  }

  lemma {:induction false} SpelledTotal(names: seq<Word>, stream: seq<Phrase>, text: seq<seq<Word>>, id: nat)
    requires Distinct(names) && SpellsAll(names, stream, text)
    ensures Records(stream)[id] == if 1 <= id <= |names| then Records(text)[names[id - 1]] else 0
  {
    if stream != [] {
      var n := |stream| - 1;
      assert Spells(names, stream[n], text[n]);
      forall i | 0 <= i < n ensures Spells(names, stream[..n][i], text[..n][i]) {
        assert Spells(names, stream[i], text[i]);
      }
      SpelledTotal(names, stream[..n], text[..n], id);
      SpelledCount(names, stream[n], text[n], id);
    }
  }

  lemma NextToken(w: Phrase, i: nat, g: Gram)
    requires 0 < i <= |w|
    ensures multiset(WindowsTo(1, w, i))[g] ==
            multiset(WindowsTo(1, w, i - 1))[g] + if g == [w[i - 1]] then 1 else 0
    ensures |g| == 1 ==>
              multiset(w[..i])[g[0]] == multiset(w[..i - 1])[g[0]] + if g == [w[i - 1]] then 1 else 0
  {
    assert Window(1, w, i - 1) == [w[i - 1]];
    LastCounts(WindowsTo(1, w, i), g);
    if |g| == 1 {
      assert w[..i][..i - 1] == w[..i - 1];
      LastCounts(w[..i], g[0]);
      assert g == [g[0]];
    }
  }

  lemma {:induction false} TokensOfPhrase(w: Phrase, i: nat, g: Gram)
    requires i <= |w|
    ensures multiset(WindowsTo(1, w, i))[g] == if |g| == 1 then multiset(w[..i])[g[0]] else 0
  {
    if i > 0 {
      TokensOfPhrase(w, i - 1, g);
      NextToken(w, i, g);
    }
  }

  /** Windows of one word are the words. */
  lemma {:induction false} TokensAreWindows(stream: seq<Phrase>, g: Gram)
    ensures multiset(AllWindows(1, stream))[g] == if |g| == 1 then Records(stream)[g[0]] else 0
  {
    if stream != [] {
      var n := |stream| - 1;
      TokensAreWindows(stream[..n], g);
      TokensOfPhrase(stream[n], |stream[n]|, g);
      assert stream[n][..|stream[n]|] == stream[n];
    }
  }

  /** uni.bin as a table of counts of one-word windows. */
  function AsCounts(uni: seq<Unigram>): seq<Count> {
    if uni == [] then []
    else
      var u := uni[|uni| - 1];
      AsCounts(uni[..|uni| - 1]) + [Count([u.id], u.weight)]
  }

  lemma {:induction false} AsCountsAt(uni: seq<Unigram>)
    ensures |AsCounts(uni)| == |uni|
    ensures forall i | 0 <= i < |uni| :: AsCounts(uni)[i] == Count([uni[i].id], uni[i].weight)
  {
    if uni != [] {
      AsCountsAt(uni[..|uni| - 1]);
    }
  }

  lemma WordCounted(words: map<Word, UniVal>, names: seq<Word>, stream: seq<Phrase>, text: seq<seq<Word>>, u: Unigram)
    requires Agrees(words, names, stream, text, [])
    requires u.str in words && words[u.str] == UniVal(u.id, u.weight)
    ensures 1 <= u.id <= |names| && names[u.id - 1] == u.str
    ensures [u.id] in multiset(AllWindows(1, stream)) && u.weight == U32(multiset(AllWindows(1, stream))[[u.id]])
  {
    NameOfWord(words, names, u);
    NamesDistinct(words, names);
    WordOccurs(names, stream, text, u.id, u.str);
    WeightOfWord(words, Records(text), u);
  }

  lemma NameOfWord(words: map<Word, UniVal>, names: seq<Word>, u: Unigram)
    requires Numbered(words, names) && u.str in words && words[u.str].id == u.id
    ensures 1 <= u.id <= |names| && names[u.id - 1] == u.str
  {
    var i :| 0 <= i < |names| && names[i] == u.str;
    assert HasNumber(words, names, i);
  }

  lemma WordOccurs(names: seq<Word>, stream: seq<Phrase>, text: seq<seq<Word>>, id: nat, w: Word)
    requires Distinct(names) && SpellsAll(names, stream, text) && 1 <= id <= |names| && names[id - 1] == w
    ensures multiset(AllWindows(1, stream))[[id]] == Records(text)[w]
  {
    SpelledTotal(names, stream, text, id);
    TokensAreWindows(stream, [id]);
  }

  lemma WeightOfWord(words: map<Word, UniVal>, seen: multiset<Word>, u: Unigram)
    requires Counted(words, seen + multiset([])) && u.str in words && words[u.str].weight == u.weight
    ensures seen[u.str] > 0 && u.weight == U32(seen[u.str])
  {
    assert seen + multiset([]) == seen;
    assert HasWeight(words, seen, u.str);
  }

  lemma WordListed(words: map<Word, UniVal>, names: seq<Word>, uni: seq<Unigram>, id: nat)
    requires Numbered(words, names) && ListsWords(uni, words) && 1 <= id <= |names|
    ensures HasKey(AsCounts(uni), [id])
  {
    var w := names[id - 1];
    assert HasNumber(words, names, id - 1);
    var i :| 0 <= i < |uni| && uni[i] == Unigram(w, words[w].id, words[w].weight);
    AsCountsAt(uni);
    assert AsCounts(uni)[i].key == [id];
  }

  lemma TokenListed(
    words: map<Word, UniVal>, names: seq<Word>, stream: seq<Phrase>, text: seq<seq<Word>>, uni: seq<Unigram>, g: Gram)
    requires Numbered(words, names) && SpellsAll(names, stream, text) && ListsWords(uni, words)
    requires g in multiset(AllWindows(1, stream))
    ensures HasKey(AsCounts(uni), g)
  {
    TokensAreWindows(stream, g);
    NamesDistinct(words, names);
    SpelledTotal(names, stream, text, g[0]);
    WordListed(words, names, uni, g[0]);
    assert g == [g[0]];
  }

  lemma IdsDistinct(words: map<Word, UniVal>, names: seq<Word>, uni: seq<Unigram>, i: nat, j: nat)
    requires Numbered(words, names) && ListsWords(uni, words) && i < j < |uni|
    ensures uni[i].id != uni[j].id
  {
    assert uni[i] in uni && uni[j] in uni;
    var a :| 0 <= a < |names| && names[a] == uni[i].str;
    var b :| 0 <= b < |names| && names[b] == uni[j].str;
    assert HasNumber(words, names, a) && HasNumber(words, names, b);
  }

  /** uni.bin counts the words of the corpus: ids are distinct, every word is listed, and each
      weight is its number of occurrences. */
  lemma UnigramsTabulate(
    words: map<Word, UniVal>, names: seq<Word>, stream: seq<Phrase>, text: seq<seq<Word>>, uni: seq<Unigram>)
    requires Agrees(words, names, stream, text, []) && ListsWords(uni, words)
    ensures Tabulates(AsCounts(uni), multiset(AllWindows(1, stream)))
  {
    var t, bag := AsCounts(uni), multiset(AllWindows(1, stream));
    AsCountsAt(uni);
    forall i | 0 <= i < |t| ensures t[i].key in bag && t[i].weight == U32(bag[t[i].key]) {
      assert uni[i] in uni;
      WordCounted(words, names, stream, text, uni[i]);
    }
    forall i, j | 0 <= i < j < |t| ensures t[i].key != t[j].key {
      IdsDistinct(words, names, uni, i, j);
      assert t[i].key[0] != t[j].key[0];
    }
    forall g ensures HasKey(t, g) <==> g in bag {
      if g in bag {
        TokenListed(words, names, stream, text, uni, g);
      }
    }
  }
}
