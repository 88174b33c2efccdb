/** `convert` and `lemmatize` together: what their files promise to the stages that follow. */
module Preparation {
  import opened Bags
  import opened Corpus
  import opened Convert
  import opened Lemmer
  import opened Weights
  import opened Filters
  import opened DocFreq
  import opened Lemmatize
  import opened FreqStat
  import opened CorpusFacts

  // The stream of ids and the stream of words ---------------------------------------------

  lemma SpellsConcat(
    names: seq<Word>, s: seq<Phrase>, t: seq<Phrase>, s': seq<seq<Word>>, t': seq<seq<Word>>)
    requires SpellsAll(names, s, s') && SpellsAll(names, t, t')
    ensures SpellsAll(names, s + t, s' + t')
  {
    forall i | 0 <= i < |s + t| ensures Spells(names, (s + t)[i], (s' + t')[i]) {
      if i < |s| {
        assert Spells(names, s[i], s'[i]);
      } else {
        assert Spells(names, t[i - |s|], t'[i - |s|]);
      }
    }
  }

  lemma SpellsFront(names: seq<Word>, stream: seq<Phrase>, text: seq<seq<Word>>)
    requires SpellsAll(names, stream, text) && stream != []
    ensures SpellsAll(names, stream[..|stream| - 1], text[..|text| - 1])
    ensures Spells(names, stream[|stream| - 1], text[|text| - 1])
  {
    var n := |stream| - 1;
    assert Spells(names, stream[n], text[n]);
    forall i | 0 <= i < n ensures Spells(names, stream[..n][i], text[..n][i]) {
      assert Spells(names, stream[i], text[i]);
    }
  }

  lemma {:induction false} PhraseWindows(names: seq<Word>, n: nat, ids: Phrase, ws: seq<Word>, i: nat)
    requires Spells(names, ids, ws) && i + n <= |ids| + 1
    ensures SpellsAll(names, WindowsTo(n, ids, i), WindowsTo(n, ws, i))
  {
    if i > 0 {
      PhraseWindows(names, n, ids, ws, i - 1);
      var v, v' := Window(n, ids, i - 1), Window(n, ws, i - 1);
      forall k | 0 <= k < n ensures 1 <= v[k] <= |names| && names[v[k] - 1] == v'[k] {
        assert v[k] == ids[i - 1 + k] && v'[k] == ws[i - 1 + k];
      }
      assert Spells(names, [v][0], [v'][0]);
      SpellsConcat(names, WindowsTo(n, ids, i - 1), [v], WindowsTo(n, ws, i - 1), [v']);
    }
  }

  /** The windows of ids spell the windows of words, one by one. */
  lemma {:induction false} WindowsSpelled(names: seq<Word>, n: nat, stream: seq<Phrase>, text: seq<seq<Word>>)
    requires SpellsAll(names, stream, text)
    ensures SpellsAll(names, AllWindows(n, stream), AllWindows(n, text))
  {
    if stream != [] {
      var m := |stream| - 1;
      SpellsFront(names, stream, text);
      WindowsSpelled(names, n, stream[..m], text[..m]);
      if |stream[m]| >= n {
        PhraseWindows(names, n, stream[m], text[m], |stream[m]| - n + 1);
      }
      SpellsConcat(names, AllWindows(n, stream[..m]), Windows(n, stream[m]),
                   AllWindows(n, text[..m]), Windows(n, text[m]));
    }
  }

  ghost predicate SpellsDocs(names: seq<Word>, docs: seq<seq<Phrase>>, texts: seq<seq<seq<Word>>>) {
    && |docs| == |texts|
    && forall i {:trigger SpellsAll(names, docs[i], texts[i])} | 0 <= i < |docs| :: SpellsAll(names, docs[i], texts[i])
  }

  /** Dividing commutes with spelling. */
  lemma {:induction false} DivisionSpelled(names: seq<Word>, stream: seq<Phrase>, text: seq<seq<Word>>)
    requires SpellsAll(names, stream, text)
    ensures SpellsDocs(names, Divide(stream).docs, Divide(text).docs)
    ensures SpellsAll(names, Divide(stream).open, Divide(text).open)
  {
    if stream != [] {
      var m := |stream| - 1;
      SpellsFront(names, stream, text);
      DivisionSpelled(names, stream[..m], text[..m]);
      var d, d' := Divide(stream[..m]), Divide(text[..m]);
      if stream[m] == [] {
        forall i | 0 <= i < |d.docs + [d.open]|
          ensures SpellsAll(names, (d.docs + [d.open])[i], (d'.docs + [d'.open])[i])
        {
          assert i < |d.docs| ==> SpellsAll(names, d.docs[i], d'.docs[i]);
        }
      } else {
        assert Spells(names, [stream[m]][0], [text[m]][0]);
        SpellsConcat(names, d.open, [stream[m]], d'.open, [text[m]]);
      }
    }
  }

  // What later stages rely on ------------------------------------------------------------------

  /** Whatever stands in the table occurs in the corpus and in lemid.bin, and the other way round;
      no word is without lemmas, and the last document is closed. */
  ghost predicate Prepared(corpus: seq<Phrase>, uni: seq<Unigram>, lems: LemTable, lemids: seq<LemId>) {
    && Finished(corpus)
    && |AllWindows(1, corpus)| < 0x1_0000_0000
    && Exact(AsCounts(uni), AllWindows(1, corpus))
    && KnownWords(lems, corpus)
    && ListsLemmas(lemids, lems)
    && (forall l :: IsLemma(lems, l) ==> Occurs(lems, [l], AllWindows(1, corpus)))
    && (forall m | m in lemids :: IsLemma(lems, m.id))
  }

  lemma UnigramIds(words: map<Word, UniVal>, names: seq<Word>, uni: seq<Unigram>)
    requires Numbered(words, names) && ListsWords(uni, words)
    ensures ValidIds(uni) && |uni| == |names|
    ensures forall u | u in uni :: names[u.id - 1] == u.str
  {
    forall u | u in uni ensures 1 <= u.id <= |uni| && names[u.id - 1] == u.str {
      var i :| 0 <= i < |names| && names[i] == u.str;
      assert HasNumber(words, names, i);
    }
    forall i, j | 0 <= i < j < |uni| ensures uni[i].id != uni[j].id {
      IdsDistinct(words, names, uni, i, j);
    }
  }

  lemma WordsKnown(names: seq<Word>, corpus: seq<Phrase>, text: seq<seq<Word>>, lems: LemTable)
    requires SpellsAll(names, corpus, text) && |lems| == |names| && forall l | l in lems :: l != []
    ensures KnownWords(lems, corpus)
  {
    forall j | 0 <= j < |corpus| ensures KnownPhrase(lems, corpus[j]) {
      assert Spells(names, corpus[j], text[j]);
      forall k | 0 <= k < |corpus[j]| ensures LemsOf(lems, corpus[j][k]) != [] {
        assert lems[corpus[j][k] - 1] in lems;
      }
    }
  }

  /** Every lemma of the table has a number that was handed out, so lemid.bin lists it. */
  lemma LemmasListed(
    uni: seq<Unigram>, terms: Word -> seq<Term>, lems: LemTable, names: seq<Term>, lemids: seq<LemId>)
    requires Lemmatized(uni, |uni|, terms, lems, names) && |lemids| == |names|
    requires forall m | m in lemids :: 1 <= m.id <= |names|
    requires forall i, j | 0 <= i < j < |lemids| :: lemids[i].id != lemids[j].id
    ensures ListsLemmas(lemids, lems)
  {
    forall l | IsLemma(lems, l) ensures exists i :: 0 <= i < |lemids| && lemids[i].id == l {
      var w: nat :| l in LemsOf(lems, w);
      assert Assigned(uni, |uni|, w);
      var k :| 0 <= k < |uni| && uni[k].id == w;
      assert Spells(names, lems[uni[k].id - 1], terms(uni[k].str));
      var ids := seq(|lemids|, i requires 0 <= i < |lemids| => lemids[i].id);
      forall i | 0 <= i < |ids| ensures 1 <= ids[i] <= |ids| {
        assert lemids[i] in lemids;
      }
      var at := IndexOf(ids, l);
      assert lemids[at].id == l;
    }
  }

  /** Every word of the table was written, so every lemma of the table occurs. */
  lemma LemmaOccurs(
    words: map<Word, UniVal>, names: seq<Word>, uni: seq<Unigram>, corpus: seq<Phrase>, lems: LemTable, l: nat)
    requires Numbered(words, names) && ListsWords(uni, words) && |lems| == |names|
    requires Exact(AsCounts(uni), AllWindows(1, corpus)) && IsLemma(lems, l)
    ensures Occurs(lems, [l], AllWindows(1, corpus))
  {
    var w: nat :| l in LemsOf(lems, w);
    WordListed(words, names, uni, w);
    assert Listed(AsCounts(uni), AllWindows(1, corpus), [w]);
    CarriesOne(lems, l, w);
  }

  lemma WordsLemmatized(
    words: map<Word, UniVal>, names: seq<Word>, corpus: seq<Phrase>, text: seq<seq<Word>>, uni: seq<Unigram>,
    terms: Word -> seq<Term>, lems: LemTable, lemNames: seq<Term>)
    requires Agrees(words, names, corpus, text, []) && ListsWords(uni, words) && ValidIds(uni)
    requires Lemmatized(uni, |uni|, terms, lems, lemNames)
    requires forall w | w in Records(text) :: terms(w) != []
    ensures forall l | l in lems :: l != []
  {
    forall u | u in uni ensures terms(u.str) != [] {
      assert HasWeight(words, Records(text) + multiset([]), u.str);
    }
    NoneEmpty(uni, terms, lems, lemNames);
  }

  /** The windows of the files are those of the raw documents. */
  lemma RawSize(lower: seq<nat> -> Word, docs: seq<seq<Token>>, names: seq<Word>, corpus: seq<Phrase>, n: nat)
    requires n > 0 && SpellsAll(names, corpus, EncodeAll(lower, docs))
    ensures SpellsAll(names, AllWindows(n, corpus), RawWindows(lower, n, docs))
    ensures |AllWindows(n, corpus)| == |RawWindows(lower, n, docs)|
  {
    WindowsSpelled(names, n, corpus, EncodeAll(lower, docs));
    EncodedWindows(lower, n, docs);
  }

  lemma RawDocuments(lower: seq<nat> -> Word, docs: seq<seq<Token>>, names: seq<Word>, corpus: seq<Phrase>)
    requires SpellsAll(names, corpus, EncodeAll(lower, docs))
    ensures Finished(corpus) && SpellsDocs(names, Divide(corpus).docs, NonEmptyRuns(lower, docs))
  {
    DivisionSpelled(names, corpus, EncodeAll(lower, docs));
    EncodingRoundTrip(lower, docs);
  }

  /** The entry of word `w` spells the terms that the lemmatizer gives for it. */
  ghost predicate LemmasSpelled(
    names: seq<Word>, terms: Word -> seq<Term>, lems: LemTable, lemNames: seq<Term>, w: nat)
  {
    1 <= w <= |names| ==> Spells(lemNames, LemsOf(lems, w), terms(names[w - 1]))
  }

  /** Numbers of words and of lemmas stand for different words and different terms, and the table
      is that of the lemmatizer. */
  ghost predicate Dictionary(names: seq<Word>, terms: Word -> seq<Term>, lems: LemTable, lemNames: seq<Term>) {
    && Distinct(names) && Distinct(lemNames)
    && |lems| == |names|
    && forall w: nat :: LemmasSpelled(names, terms, lems, lemNames, w)
  }

  /** uni.bin and lemid.bin list these words and terms under these numbers, each once. */
  ghost predicate ListsNames(names: seq<Word>, uni: seq<Unigram>, lemNames: seq<Term>, lemids: seq<LemId>) {
    && |uni| == |names| && |lemids| == |lemNames|
    && (forall i, j | 0 <= i < j < |uni| :: uni[i].id != uni[j].id)
    && (forall i, j | 0 <= i < j < |lemids| :: lemids[i].id != lemids[j].id)
    && (forall u | u in uni :: 1 <= u.id <= |names| && names[u.id - 1] == u.str)
    && (forall m | m in lemids :: 1 <= m.id <= |lemNames| && lemNames[m.id - 1] == m.str)
  }

  /** Words are numbered as they come up in the documents, and terms as they come up in uni.bin. */
  ghost predicate NumberedInOrder(names: seq<Word>, ws: seq<Word>, lemNames: seq<Term>, ts: seq<Term>) {
    names == Firsts(ws) && lemNames == Firsts(ts)
  }

  lemma PlaceOfWord(words: map<Word, UniVal>, names: seq<Word>, uni: seq<Unigram>, w: nat) returns (k: nat)
    requires Numbered(words, names) && ListsWords(uni, words) && 1 <= w <= |names|
    ensures k < |uni| && uni[k].id == w && uni[k].str == names[w - 1]
  {
    assert HasNumber(words, names, w - 1);
    var v := words[names[w - 1]];
    k :| 0 <= k < |uni| && uni[k] == Unigram(names[w - 1], v.id, v.weight);
  }

  lemma WordSpelled(
    words: map<Word, UniVal>, names: seq<Word>, uni: seq<Unigram>, terms: Word -> seq<Term>,
    lems: LemTable, lemNames: seq<Term>, w: nat)
    requires Numbered(words, names) && ListsWords(uni, words)
    requires Lemmatized(uni, |uni|, terms, lems, lemNames)
    ensures LemmasSpelled(names, terms, lems, lemNames, w)
  {
    if 1 <= w <= |names| {
      var k := PlaceOfWord(words, names, uni, w);
      assert Spells(lemNames, lems[uni[k].id - 1], terms(uni[k].str));
    }
  }

  lemma PreparedFiles(
    words: map<Word, UniVal>, names: seq<Word>, corpus: seq<Phrase>, text: seq<seq<Word>>, uni: seq<Unigram>,
    terms: Word -> seq<Term>, lems: LemTable, lemNames: seq<Term>, lemids: seq<LemId>)
    requires Agrees(words, names, corpus, text, []) && ListsWords(uni, words)
    requires Finished(corpus) && |AllWindows(1, corpus)| < 0x1_0000_0000
    requires Lemmatized(uni, |uni|, terms, lems, lemNames) && forall l | l in lems :: l != []
    requires ListsLemmas(lemids, lems) && forall m | m in lemids :: 1 <= m.id <= |lemNames|
    ensures Prepared(corpus, uni, lems, lemids)
  {
    UnigramsTabulate(words, names, corpus, text, uni);
    SmallIsExact(AsCounts(uni), AllWindows(1, corpus));
    WordsKnown(names, corpus, text, lems);
    forall l | IsLemma(lems, l) ensures Occurs(lems, [l], AllWindows(1, corpus)) {
      LemmaOccurs(words, names, uni, corpus, lems, l);
    }
  }

  /** `convert` and `lemmatize`: the files, and the words behind the numbers in them. */
  method Prepare(lower: seq<nat> -> Word, terms: Word -> seq<Term>, docs: seq<seq<Token>>)
    returns (corpus: seq<Phrase>, uni: seq<Unigram>, lemids: seq<LemId>, file: LemTable, total: nat,
             ghost names: seq<Word>, ghost lemNames: seq<Term>)
    requires |RawWindows(lower, 1, docs)| < 0x1_0000_0000
    requires forall w | w in Records(EncodeAll(lower, docs)) :: terms(w) != []
    ensures Prepared(corpus, uni, file, lemids)
    ensures SpellsAll(names, corpus, EncodeAll(lower, docs))
    ensures Dictionary(names, terms, file, lemNames) && ListsNames(names, uni, lemNames, lemids)
    ensures NumberedInOrder(names, AllAccepted(lower, docs), lemNames, TermsListed(uni, terms))
    ensures total == |NonEmptyRuns(lower, docs)|
  {
    ghost var words;
    corpus, uni, total, names, words := ConvertDocuments(lower, docs);
    EncodingRoundTrip(lower, docs);
    RawSize(lower, docs, names, corpus, 1);
    RawDocuments(lower, docs, names, corpus);
    assert AllAccepted(lower, docs) + [] == AllAccepted(lower, docs);
    UnigramIds(words, names, uni);
    NamesDistinct(words, names);
    var lems, lemid;
    lems, lemid := LemmatizeWords(uni, terms);
    lemNames := Firsts(TermsListed(uni, terms));
    TermsDistinct(lemid, lemNames);
    lemids := SaveLemIds(lemid, lemNames);
    LemmasListed(uni, terms, lems, lemNames, lemids);
    WordsLemmatized(words, names, corpus, EncodeAll(lower, docs), uni, terms, lems, lemNames);
    SavedIffNoneEmpty(lems);
    ghost var from;
    file, from := SaveLems(lems);
    forall w: nat ensures LemmasSpelled(names, terms, file, lemNames, w) {
      WordSpelled(words, names, uni, terms, lems, lemNames, w);
    }
    PreparedFiles(words, names, corpus, EncodeAll(lower, docs), uni, terms, lems, lemNames, lemids);
  }
}
