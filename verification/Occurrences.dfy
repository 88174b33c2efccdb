/** What the numbers in the files are, counted at places of the raw documents: place `p` of
    document `d` is the pair `(d, p)`. */
module Occurrences {
  import opened Wrappers
  import opened Orders
  import opened Bags
  import opened Corpus
  import opened Tables
  import opened Counting
  import opened Convert
  import opened Weights
  import opened Lemmer
  import opened Lemmatize
  import opened Filters
  import opened CorpusFacts
  import opened RawFacts
  import opened Pipeline

  // Words at places ----------------------------------------------------------------------------

  /** The tokens from place `p` on are accepted as the words `ws`. */
  ghost predicate WordsAt(lower: seq<nat> -> Word, doc: seq<Token>, p: nat, ws: seq<Word>) {
    p + |ws| <= |doc| && forall k | 0 <= k < |ws| :: Accept(lower, doc[p + k]) == Some(ws[k])
  }

  lemma {:induction false} AllWordsAt(lower: seq<nat> -> Word, tokens: seq<Token>, ws: seq<Word>)
    ensures AllWords(lower, tokens) == Some(ws) <==> |tokens| == |ws| && WordsAt(lower, tokens, 0, ws)
  {
    if tokens != [] && ws != [] {
      var n, m := |tokens| - 1, |ws| - 1;
      AllWordsAt(lower, tokens[..n], ws[..m]);
      assert ws == ws[..m] + [ws[m]];
      if n == m {
        assert WordsAt(lower, tokens, 0, ws) <==>
               WordsAt(lower, tokens[..n], 0, ws[..n]) && Accept(lower, tokens[n]) == Some(ws[n]);
      }
    }
  }

  lemma AcceptedHere(lower: seq<nat> -> Word, n: nat, doc: seq<Token>, p: nat, ws: seq<Word>)
    requires p + n <= |doc|
    ensures multiset(AcceptedAt(lower, n, doc, p))[ws] == if |ws| == n && WordsAt(lower, doc, p, ws) then 1 else 0
  {
    var w := Window(n, doc, p);
    AllWordsAt(lower, w, ws);
    assert |ws| == n ==> (WordsAt(lower, w, 0, ws) <==> WordsAt(lower, doc, p, ws)) by {
      assert w == doc[p..p + n];
    }
  }

  /** The places before `i` at which `ws` stands. */
  ghost function Starts(lower: seq<nat> -> Word, doc: seq<Token>, ws: seq<Word>, i: nat): set<nat> {
    set p: nat | p < i && WordsAt(lower, doc, p, ws)
  }

  lemma CountConcat<T>(s: seq<T>, t: seq<T>, x: T)
    ensures multiset(s + t)[x] == multiset(s)[x] + multiset(t)[x]
  {
  }

  lemma NextStart(lower: seq<nat> -> Word, doc: seq<Token>, ws: seq<Word>, i: nat)
    requires i > 0
    ensures |Starts(lower, doc, ws, i)| ==
            |Starts(lower, doc, ws, i - 1)| + if WordsAt(lower, doc, i - 1, ws) then 1 else 0
  {
    var before, after := Starts(lower, doc, ws, i - 1), Starts(lower, doc, ws, i);
    assert after == if WordsAt(lower, doc, i - 1, ws) then before + {i - 1} else before;
  }

  lemma {:induction false} StartsCounted(lower: seq<nat> -> Word, n: nat, doc: seq<Token>, ws: seq<Word>, i: nat)
    requires |ws| == n && i + n <= |doc| + 1
    ensures multiset(AcceptedTo(lower, n, doc, i))[ws] == |Starts(lower, doc, ws, i)|
  {
    if i > 0 {
      StartsCounted(lower, n, doc, ws, i - 1);
      AcceptedHere(lower, n, doc, i - 1, ws);
      CountConcat(AcceptedTo(lower, n, doc, i - 1), AcceptedAt(lower, n, doc, i - 1), ws);
      NextStart(lower, doc, ws, i);
    }
  }

  lemma DocumentCounted(lower: seq<nat> -> Word, doc: seq<Token>, ws: seq<Word>)
    requires ws != []
    ensures multiset(AcceptedWindows(lower, |ws|, doc))[ws] == |Starts(lower, doc, ws, |doc|)|
  {
    if |doc| < |ws| {
      assert Starts(lower, doc, ws, |doc|) == {};
    } else {
      StartsCounted(lower, |ws|, doc, ws, |doc| - |ws| + 1);
      assert Starts(lower, doc, ws, |doc|) == Starts(lower, doc, ws, |doc| - |ws| + 1);
    }
  }

  ghost function PlacesOf(lower: seq<nat> -> Word, docs: seq<seq<Token>>, ws: seq<Word>): set<(nat, nat)> {
    set d: nat, p: nat | d < |docs| && p < |docs[d]| && WordsAt(lower, docs[d], p, ws) :: (d, p)
  }

  ghost function InDocument(d: nat, s: set<nat>): set<(nat, nat)> {
    set p | p in s :: (d, p)
  }

  lemma {:induction false} InDocumentSize(d: nat, s: set<nat>)
    ensures |InDocument(d, s)| == |s|
  {
    if s != {} {
      var p :| p in s;
      InDocumentSize(d, s - {p});
      assert InDocument(d, s) == InDocument(d, s - {p}) + {(d, p)};
    }
  }

  lemma NextPlaces(lower: seq<nat> -> Word, docs: seq<seq<Token>>, ws: seq<Word>, m: nat)
    requires m + 1 == |docs|
    ensures |PlacesOf(lower, docs, ws)| ==
            |PlacesOf(lower, docs[..m], ws)| + |Starts(lower, docs[m], ws, |docs[m]|)|
  {
    var starts := Starts(lower, docs[m], ws, |docs[m]|);
    var front, last := PlacesOf(lower, docs[..m], ws), InDocument(m, starts);
    InDocumentSize(m, starts);
    assert front !! last;
    assert PlacesOf(lower, docs, ws) == front + last;
  }

  /** Words stand in the raw windows as often as in the documents. */
  lemma {:induction false} PlacesCounted(lower: seq<nat> -> Word, docs: seq<seq<Token>>, ws: seq<Word>)
    requires ws != []
    ensures multiset(RawWindows(lower, |ws|, docs))[ws] == |PlacesOf(lower, docs, ws)|
  {
    if docs != [] {
      var m := |docs| - 1;
      PlacesCounted(lower, docs[..m], ws);
      DocumentCounted(lower, docs[m], ws);
      CountConcat(RawWindows(lower, |ws|, docs[..m]), AcceptedWindows(lower, |ws|, docs[m]), ws);
      NextPlaces(lower, docs, ws, m);
    }
  }

  // Terms in documents ---------------------------------------------------------------------------

  /** The token is accepted as a word with this term. */
  ghost predicate HasTerm(lower: seq<nat> -> Word, terms: Word -> seq<Term>, token: Token, t: Term) {
    Accept(lower, token).Some? && t in terms(Accept(lower, token).value)
  }

  /** The tokens from place `p` on are accepted as words with these terms. */
  ghost predicate TermsAt(
    lower: seq<nat> -> Word, terms: Word -> seq<Term>, doc: seq<Token>, p: nat, ts: seq<Term>)
  {
    p + |ts| <= |doc| && forall k | 0 <= k < |ts| :: HasTerm(lower, terms, doc[p + k], ts[k])
  }

  ghost predicate HasTermsAt(lower: seq<nat> -> Word, terms: Word -> seq<Term>, doc: seq<Token>, ts: seq<Term>) {
    exists p: nat :: p < |doc| && TermsAt(lower, terms, doc, p, ts)
  }

  lemma {:induction false} AcceptedSomewhere(
    lower: seq<nat> -> Word, n: nat, doc: seq<Token>, i: nat, ws: seq<Word>) returns (p: nat)
    requires i + n <= |doc| + 1 && ws in AcceptedTo(lower, n, doc, i)
    ensures p < i && |ws| == n && WordsAt(lower, doc, p, ws)
  {
    AcceptedHere(lower, n, doc, i - 1, ws);
    if ws in AcceptedAt(lower, n, doc, i - 1) {
      p := i - 1;
    } else {
      p := AcceptedSomewhere(lower, n, doc, i - 1, ws);
    }
  }

  /** The words that the tokens from place `p` on are accepted as. */
  ghost function WordsFrom(lower: seq<nat> -> Word, doc: seq<Token>, p: nat, n: nat): seq<Word>
    requires p + n <= |doc|
  {
    seq(n, k requires 0 <= k < n => match Accept(lower, doc[p + k]) case Some(w) => w case None => [])
  }

  lemma TermsAtWords(
    lower: seq<nat> -> Word, terms: Word -> seq<Term>, doc: seq<Token>, p: nat, ts: seq<Term>, ws: seq<Word>)
    requires WordsAt(lower, doc, p, ws) && |ws| == |ts|
    ensures TermsAt(lower, terms, doc, p, ts) <==> TermsCarried(terms, ts, ws)
  {
    forall k | 0 <= k < |ts| ensures HasTerm(lower, terms, doc[p + k], ts[k]) <==> ts[k] in terms(ws[k]) {
      assert Accept(lower, doc[p + k]) == Some(ws[k]);
    }
  }

  lemma WordsOfTerms(
    lower: seq<nat> -> Word, terms: Word -> seq<Term>, doc: seq<Token>, p: nat, ts: seq<Term>)
    requires TermsAt(lower, terms, doc, p, ts)
    ensures WordsAt(lower, doc, p, WordsFrom(lower, doc, p, |ts|))
  {
    var ws := WordsFrom(lower, doc, p, |ts|);
    forall k | 0 <= k < |ws| ensures Accept(lower, doc[p + k]) == Some(ws[k]) {
      assert HasTerm(lower, terms, doc[p + k], ts[k]);
    }
  }

  lemma TermsInDocument(lower: seq<nat> -> Word, terms: Word -> seq<Term>, doc: seq<Token>, ts: seq<Term>)
    requires ts != []
    ensures TermsOccur(terms, ts, AcceptedWindows(lower, |ts|, doc)) <==> HasTermsAt(lower, terms, doc, ts)
  {
    var n, grams := |ts|, AcceptedWindows(lower, |ts|, doc);
    if TermsOccur(terms, ts, grams) {
      var ws :| ws in grams && TermsCarried(terms, ts, ws);
      var p := AcceptedSomewhere(lower, n, doc, |doc| - n + 1, ws);
      TermsAtWords(lower, terms, doc, p, ts, ws);
      assert TermsAt(lower, terms, doc, p, ts);
    }
    if HasTermsAt(lower, terms, doc, ts) {
      var p: nat :| p < |doc| && TermsAt(lower, terms, doc, p, ts);
      var ws := WordsFrom(lower, doc, p, n);
      WordsOfTerms(lower, terms, doc, p, ts);
      TermsAtWords(lower, terms, doc, p, ts, ws);
      DocumentCounted(lower, doc, ws);
      assert p in Starts(lower, doc, ws, |doc|);
      assert ws in multiset(grams);
      assert ws in grams && TermsCarried(terms, ts, ws);
    }
  }

  ghost function DocumentsWith(
    lower: seq<nat> -> Word, terms: Word -> seq<Term>, docs: seq<seq<Token>>, ts: seq<Term>): set<nat>
  {
    set d: nat | d < |docs| && HasTermsAt(lower, terms, docs[d], ts)
  }

  lemma TermsInRuns(lower: seq<nat> -> Word, terms: Word -> seq<Term>, doc: seq<Token>, ts: seq<Term>)
    requires ts != []
    ensures TermsOccur(terms, ts, AllWindows(|ts|, RunsOfWords(lower, doc))) <==> HasTermsAt(lower, terms, doc, ts)
    ensures RunsOfWords(lower, doc) == [] ==> !HasTermsAt(lower, terms, doc, ts)
  {
    RunsAreMaximal(lower, |ts|, doc);
    TermsInDocument(lower, terms, doc, ts);
  }

  lemma NextDocumentWith(
    lower: seq<nat> -> Word, terms: Word -> seq<Term>, docs: seq<seq<Token>>, ts: seq<Term>, m: nat)
    requires m + 1 == |docs|
    ensures |DocumentsWith(lower, terms, docs, ts)| ==
            |DocumentsWith(lower, terms, docs[..m], ts)| + if HasTermsAt(lower, terms, docs[m], ts) then 1 else 0
  {
    var before := DocumentsWith(lower, terms, docs[..m], ts);
    assert DocumentsWith(lower, terms, docs, ts) ==
           if HasTermsAt(lower, terms, docs[m], ts) then before + {m} else before;
  }

  lemma TermFrequencySnoc(terms: Word -> seq<Term>, ts: seq<Term>, texts: seq<seq<seq<Word>>>, text: seq<seq<Word>>)
    ensures TermFrequency(terms, ts, texts + [text]) ==
            TermFrequency(terms, ts, texts) + if TermsOccur(terms, ts, AllWindows(|ts|, text)) then 1 else 0
  {
    assert (texts + [text])[..|texts|] == texts;
  }

  /** Terms occur in as many divided documents as in raw documents. */
  lemma {:induction false} DocumentsCounted(
    lower: seq<nat> -> Word, terms: Word -> seq<Term>, docs: seq<seq<Token>>, ts: seq<Term>)
    requires ts != []
    ensures TermFrequency(terms, ts, NonEmptyRuns(lower, docs)) == |DocumentsWith(lower, terms, docs, ts)|
  {
    if docs != [] {
      var m := |docs| - 1;
      DocumentsCounted(lower, terms, docs[..m], ts);
      TermsInRuns(lower, terms, docs[m], ts);
      var front, runs := NonEmptyRuns(lower, docs[..m]), RunsOfWords(lower, docs[m]);
      if runs != [] {
        TermFrequencySnoc(terms, ts, front, runs);
      } else {
        assert front + [] == front;
      }
      NextDocumentWith(lower, terms, docs, ts, m);
    }
  }

  // In plain terms -----------------------------------------------------------------------------------

  lemma WordAt(lower: seq<nat> -> Word, doc: seq<Token>, p: nat, ws: seq<Word>, w: Word)
    requires |ws| == 1 && ws[0] == w
    ensures WordsAt(lower, doc, p, ws) <==>
            p < |doc| && Accept(lower, doc[p]) == Some(w)
  {
    if WordsAt(lower, doc, p, ws) {
      assert Accept(lower, doc[p + 0]) == Some(ws[0]);
    }
  }

  ghost function WordPlaces(lower: seq<nat> -> Word, docs: seq<seq<Token>>, w: Word): set<(nat, nat)> {
    set d: nat, p: nat | d < |docs| && p < |docs[d]|
            && Accept(lower, docs[d][p]) == Some(w) :: (d, p)
  }

  lemma SameWordPlaces(lower: seq<nat> -> Word, docs: seq<seq<Token>>, ws: seq<Word>, w: Word)
    requires |ws| == 1 && ws[0] == w
    ensures PlacesOf(lower, docs, ws) == WordPlaces(lower, docs, w)
  {
    forall d: nat, p: nat
      ensures (d, p) in PlacesOf(lower, docs, ws) <==> (d, p) in WordPlaces(lower, docs, w)
    {
      if d < |docs| && p < |docs[d]| {
        WordAt(lower, docs[d], p, ws, w);
      }
    }
  }

  /** At how many places of the documents a word stands ... */
  lemma PlacesOfWord(lower: seq<nat> -> Word, docs: seq<seq<Token>>, w: Word)
    ensures multiset(RawWindows(lower, 1, docs))[[w]] ==
            |set d: nat, p: nat | d < |docs| && p < |docs[d]|
              && Accept(lower, docs[d][p]) == Some(w) :: (d, p)|
  {
    PlacesCounted(lower, docs, [w]);
    SameWordPlaces(lower, docs, [w], w);
  }

  lemma PairAt(lower: seq<nat> -> Word, doc: seq<Token>, p: nat, ws: seq<Word>, v: Word, w: Word)
    requires |ws| == 2 && ws[0] == v && ws[1] == w
    ensures WordsAt(lower, doc, p, ws) <==>
            p + 1 < |doc| && Accept(lower, doc[p]) == Some(v) && Accept(lower, doc[p + 1]) == Some(w)
  {
    if WordsAt(lower, doc, p, ws) {
      assert Accept(lower, doc[p + 0]) == Some(ws[0]);
    }
  }

  ghost function PairPlaces(lower: seq<nat> -> Word, docs: seq<seq<Token>>, v: Word, w: Word): set<(nat, nat)> {
    set d: nat, p: nat | d < |docs| && p < |docs[d]| - 1
            && Accept(lower, docs[d][p]) == Some(v) && Accept(lower, docs[d][p + 1]) == Some(w) :: (d, p)
  }

  lemma SamePairPlaces(lower: seq<nat> -> Word, docs: seq<seq<Token>>, ws: seq<Word>, v: Word, w: Word)
    requires |ws| == 2 && ws[0] == v && ws[1] == w
    ensures PlacesOf(lower, docs, ws) == PairPlaces(lower, docs, v, w)
  {
    forall d: nat, p: nat
      ensures (d, p) in PlacesOf(lower, docs, ws) <==> (d, p) in PairPlaces(lower, docs, v, w)
    {
      if d < |docs| && p < |docs[d]| {
        PairAt(lower, docs[d], p, ws, v, w);
      }
    }
  }

  /** ... two words side by side ... */
  lemma PlacesOfPair(lower: seq<nat> -> Word, docs: seq<seq<Token>>, v: Word, w: Word)
    ensures multiset(RawWindows(lower, 2, docs))[[v, w]] ==
            |set d: nat, p: nat | d < |docs| && p < |docs[d]| - 1
              && Accept(lower, docs[d][p]) == Some(v) && Accept(lower, docs[d][p + 1]) == Some(w) :: (d, p)|
  {
    PlacesCounted(lower, docs, [v, w]);
    SamePairPlaces(lower, docs, [v, w], v, w);
  }

  lemma TripleAt(lower: seq<nat> -> Word, doc: seq<Token>, p: nat, ws: seq<Word>, u: Word, v: Word, w: Word)
    requires |ws| == 3 && ws[0] == u && ws[1] == v && ws[2] == w
    ensures WordsAt(lower, doc, p, ws) <==>
            p + 2 < |doc| && Accept(lower, doc[p]) == Some(u) && Accept(lower, doc[p + 1]) == Some(v)
            && Accept(lower, doc[p + 2]) == Some(w)
  {
    if WordsAt(lower, doc, p, ws) {
      assert Accept(lower, doc[p + 0]) == Some(ws[0]);
    }
  }

  ghost function TriplePlaces(lower: seq<nat> -> Word, docs: seq<seq<Token>>, u: Word, v: Word, w: Word): set<(nat, nat)> {
    set d: nat, p: nat | d < |docs| && p < |docs[d]| - 2
            && Accept(lower, docs[d][p]) == Some(u) && Accept(lower, docs[d][p + 1]) == Some(v)
            && Accept(lower, docs[d][p + 2]) == Some(w) :: (d, p)
  }

  lemma SameTriplePlaces(lower: seq<nat> -> Word, docs: seq<seq<Token>>, ws: seq<Word>, u: Word, v: Word, w: Word)
    requires |ws| == 3 && ws[0] == u && ws[1] == v && ws[2] == w
    ensures PlacesOf(lower, docs, ws) == TriplePlaces(lower, docs, u, v, w)
  {
    forall d: nat, p: nat
      ensures (d, p) in PlacesOf(lower, docs, ws) <==> (d, p) in TriplePlaces(lower, docs, u, v, w)
    {
      if d < |docs| && p < |docs[d]| {
        TripleAt(lower, docs[d], p, ws, u, v, w);
      }
    }
  }

  /** ... and three. */
  lemma PlacesOfTriple(lower: seq<nat> -> Word, docs: seq<seq<Token>>, u: Word, v: Word, w: Word)
    ensures multiset(RawWindows(lower, 3, docs))[[u, v, w]] ==
            |set d: nat, p: nat | d < |docs| && p < |docs[d]| - 2
              && Accept(lower, docs[d][p]) == Some(u) && Accept(lower, docs[d][p + 1]) == Some(v)
              && Accept(lower, docs[d][p + 2]) == Some(w) :: (d, p)|
  {
    PlacesCounted(lower, docs, [u, v, w]);
    SameTriplePlaces(lower, docs, [u, v, w], u, v, w);
  }

  lemma TermsAtOne(lower: seq<nat> -> Word, terms: Word -> seq<Term>, doc: seq<Token>, ts: seq<Term>, t: Term)
    requires |ts| == 1 && ts[0] == t
    ensures HasTermsAt(lower, terms, doc, ts) <==>
            exists p | 0 <= p < |doc| :: Accept(lower, doc[p]).Some? && t in terms(Accept(lower, doc[p]).value)
  {
    forall p: nat | p < |doc|
      ensures TermsAt(lower, terms, doc, p, ts) <==> HasTerm(lower, terms, doc[p], t)
    {
      if TermsAt(lower, terms, doc, p, ts) {
        assert HasTerm(lower, terms, doc[p + 0], t);
      }
    }
  }

  lemma TermsAtTwo(lower: seq<nat> -> Word, terms: Word -> seq<Term>, doc: seq<Token>, ts: seq<Term>, t: Term, t': Term)
    requires |ts| == 2 && ts[0] == t && ts[1] == t'
    ensures HasTermsAt(lower, terms, doc, ts) <==>
            exists p | 0 <= p < |doc| - 1 ::
              && Accept(lower, doc[p]).Some? && t in terms(Accept(lower, doc[p]).value)
              && Accept(lower, doc[p + 1]).Some? && t' in terms(Accept(lower, doc[p + 1]).value)
  {
    forall p: nat | p < |doc|
      ensures TermsAt(lower, terms, doc, p, ts) <==>
              p < |doc| - 1 && HasTerm(lower, terms, doc[p], t) && HasTerm(lower, terms, doc[p + 1], t')
    {
      if TermsAt(lower, terms, doc, p, ts) {
        assert HasTerm(lower, terms, doc[p + 0], t);
      }
    }
  }

  lemma TermsAtThree(lower: seq<nat> -> Word, terms: Word -> seq<Term>, doc: seq<Token>, ts: seq<Term>, t: Term, t': Term, t'': Term)
    requires |ts| == 3 && ts[0] == t && ts[1] == t' && ts[2] == t''
    ensures HasTermsAt(lower, terms, doc, ts) <==>
            exists p | 0 <= p < |doc| - 2 ::
              && Accept(lower, doc[p]).Some? && t in terms(Accept(lower, doc[p]).value)
              && Accept(lower, doc[p + 1]).Some? && t' in terms(Accept(lower, doc[p + 1]).value)
              && Accept(lower, doc[p + 2]).Some? && t'' in terms(Accept(lower, doc[p + 2]).value)
  {
    forall p: nat | p < |doc|
      ensures TermsAt(lower, terms, doc, p, ts) <==>
              p < |doc| - 2 && HasTerm(lower, terms, doc[p], t) && HasTerm(lower, terms, doc[p + 1], t')
              && HasTerm(lower, terms, doc[p + 2], t'')
    {
      if TermsAt(lower, terms, doc, p, ts) {
        assert HasTerm(lower, terms, doc[p + 0], t);
      }
    }
  }

  ghost function TermDocs(
    lower: seq<nat> -> Word, terms: Word -> seq<Term>, docs: seq<seq<Token>>, t: Term): set<nat>
  {
    set d: nat | d < |docs| && (exists p | 0 <= p < |docs[d]| ::
          Accept(lower, docs[d][p]).Some? && t in terms(Accept(lower, docs[d][p]).value)) :: d
  }

  lemma SameTermDocs(
    lower: seq<nat> -> Word, terms: Word -> seq<Term>, docs: seq<seq<Token>>, ts: seq<Term>, t: Term)
    requires |ts| == 1 && ts[0] == t
    ensures DocumentsWith(lower, terms, docs, ts) == TermDocs(lower, terms, docs, t)
  {
    forall d: nat ensures d in DocumentsWith(lower, terms, docs, ts) <==> d in TermDocs(lower, terms, docs, t) {
      if d < |docs| {
        TermsAtOne(lower, terms, docs[d], ts, t);
      }
    }
  }

  /** In how many documents a word has the term ... */
  lemma DocumentsOfTerm(
    lower: seq<nat> -> Word, terms: Word -> seq<Term>, docs: seq<seq<Token>>, t: Term)
    ensures TermFrequency(terms, [t], NonEmptyRuns(lower, docs)) ==
            |set d: nat | d < |docs| && (exists p | 0 <= p < |docs[d]| ::
                  Accept(lower, docs[d][p]).Some? && t in terms(Accept(lower, docs[d][p]).value)) :: d|
  {
    DocumentsCounted(lower, terms, docs, [t]);
    SameTermDocs(lower, terms, docs, [t], t);
  }

  ghost function PairDocs(
    lower: seq<nat> -> Word, terms: Word -> seq<Term>, docs: seq<seq<Token>>, t: Term, t': Term): set<nat>
  {
    set d: nat | d < |docs| && (exists p | 0 <= p < |docs[d]| - 1 ::
          && Accept(lower, docs[d][p]).Some? && t in terms(Accept(lower, docs[d][p]).value)
          && Accept(lower, docs[d][p + 1]).Some? && t' in terms(Accept(lower, docs[d][p + 1]).value)) :: d
  }

  lemma SamePairDocs(
    lower: seq<nat> -> Word, terms: Word -> seq<Term>, docs: seq<seq<Token>>, ts: seq<Term>, t: Term, t': Term)
    requires |ts| == 2 && ts[0] == t && ts[1] == t'
    ensures DocumentsWith(lower, terms, docs, ts) == PairDocs(lower, terms, docs, t, t')
  {
    forall d: nat ensures d in DocumentsWith(lower, terms, docs, ts) <==> d in PairDocs(lower, terms, docs, t, t') {
      if d < |docs| {
        TermsAtTwo(lower, terms, docs[d], ts, t, t');
      }
    }
  }

  /** ... two words side by side have the two terms ... */
  lemma DocumentsOfPair(
    lower: seq<nat> -> Word, terms: Word -> seq<Term>, docs: seq<seq<Token>>, t: Term, t': Term)
    ensures TermFrequency(terms, [t, t'], NonEmptyRuns(lower, docs)) ==
            |set d: nat | d < |docs| && (exists p | 0 <= p < |docs[d]| - 1 ::
                  && Accept(lower, docs[d][p]).Some? && t in terms(Accept(lower, docs[d][p]).value)
                  && Accept(lower, docs[d][p + 1]).Some? && t' in terms(Accept(lower, docs[d][p + 1]).value)) :: d|
  {
    DocumentsCounted(lower, terms, docs, [t, t']);
    SamePairDocs(lower, terms, docs, [t, t'], t, t');
  }

  ghost function TripleDocs(
    lower: seq<nat> -> Word, terms: Word -> seq<Term>, docs: seq<seq<Token>>, t: Term, t': Term, t'': Term): set<nat>
  {
    set d: nat | d < |docs| && (exists p | 0 <= p < |docs[d]| - 2 ::
          && Accept(lower, docs[d][p]).Some? && t in terms(Accept(lower, docs[d][p]).value)
          && Accept(lower, docs[d][p + 1]).Some? && t' in terms(Accept(lower, docs[d][p + 1]).value)
          && Accept(lower, docs[d][p + 2]).Some? && t'' in terms(Accept(lower, docs[d][p + 2]).value)) :: d
  }

  lemma SameTripleDocs(
    lower: seq<nat> -> Word, terms: Word -> seq<Term>, docs: seq<seq<Token>>, ts: seq<Term>, t: Term, t': Term, t'': Term)
    requires |ts| == 3 && ts[0] == t && ts[1] == t' && ts[2] == t''
    ensures DocumentsWith(lower, terms, docs, ts) == TripleDocs(lower, terms, docs, t, t', t'')
  {
    forall d: nat ensures d in DocumentsWith(lower, terms, docs, ts) <==> d in TripleDocs(lower, terms, docs, t, t', t'') {
      if d < |docs| {
        TermsAtThree(lower, terms, docs[d], ts, t, t', t'');
      }
    }
  }

  /** ... and three the three. */
  lemma DocumentsOfTriple(
    lower: seq<nat> -> Word, terms: Word -> seq<Term>, docs: seq<seq<Token>>, t: Term, t': Term, t'': Term)
    ensures TermFrequency(terms, [t, t', t''], NonEmptyRuns(lower, docs)) ==
            |set d: nat | d < |docs| && (exists p | 0 <= p < |docs[d]| - 2 ::
                  && Accept(lower, docs[d][p]).Some? && t in terms(Accept(lower, docs[d][p]).value)
                  && Accept(lower, docs[d][p + 1]).Some? && t' in terms(Accept(lower, docs[d][p + 1]).value)
                  && Accept(lower, docs[d][p + 2]).Some? && t'' in terms(Accept(lower, docs[d][p + 2]).value)) :: d|
  {
    DocumentsCounted(lower, terms, docs, [t, t', t'']);
    SameTripleDocs(lower, terms, docs, [t, t', t''], t, t', t'');
  }

  // The files of a run -----------------------------------------------------------------------------

  lemma WordEntry(names: seq<Word>, raw: seq<seq<Word>>, uni: seq<Unigram>, u: Unigram)
    requires CountsWords(AsCounts(uni), names, raw) && u in uni && 1 <= u.id <= |names| && names[u.id - 1] == u.str
    ensures u.weight == multiset(raw)[[u.str]]
  {
    AsCountsAt(uni);
    var i :| 0 <= i < |uni| && uni[i] == u;
    var c := AsCounts(uni)[i];
    assert c in AsCounts(uni) && CountsOne(names, raw, c);
    assert WordsOf(names, c.key) == [u.str];
  }

  /** uni.bin: every weight is the number of places at which the word stands. */
  lemma WordCounts(
    f: Files, s: Settings, kept: set<Gram>, lower: seq<nat> -> Word, terms: Word -> seq<Term>,
    docs: seq<seq<Token>>, names: seq<Word>, lemNames: seq<Term>, u: Unigram)
    requires Readable(f, lower, terms, docs, names, lemNames)
    requires FromDocuments(f, s, lower, terms, docs, names, lemNames) && u in f.uni
    ensures u.weight == |set d: nat, p: nat | d < |docs| && p < |docs[d]|
                           && Accept(lower, docs[d][p]) == Some(u.str) :: (d, p)|
  {
    WordEntry(names, RawWindows(lower, 1, docs), f.uni, u);
    PlacesOfWord(lower, docs, u.str);
  }

  lemma PairKeys(f: Files, s: Settings, c: Count)
    requires HasPairs(f, s) && c in f.bi
    ensures |c.key| == 2
  {
    WindowsHaveLength(2, f.corpus);
    KeyInBag(f.bi, multiset(AllWindows(2, f.corpus)), 2);
  }

  lemma PairEntry(names: seq<Word>, raw: seq<seq<Word>>, t: seq<Count>, c: Count)
    requires CountsWords(t, names, raw) && c in t && |c.key| == 2
    ensures 1 <= c.key[0] <= |names| && 1 <= c.key[1] <= |names|
    ensures c.weight == multiset(raw)[[names[c.key[0] - 1], names[c.key[1] - 1]]]
  {
    assert CountsOne(names, raw, c);
    assert WordsOf(names, c.key) == [names[c.key[0] - 1], names[c.key[1] - 1]];
  }

  /** bi.bin: every weight is the number of places at which the two words stand side by side. */
  lemma PairCounts(
    f: Files, s: Settings, kept: set<Gram>, lower: seq<nat> -> Word, terms: Word -> seq<Term>,
    docs: seq<seq<Token>>, names: seq<Word>, lemNames: seq<Term>, c: Count)
    requires Extracted(f, s, kept) && FromDocuments(f, s, lower, terms, docs, names, lemNames) && c in f.bi
    ensures |c.key| == 2 && 1 <= c.key[0] <= |names| && 1 <= c.key[1] <= |names|
    ensures c.weight == |set d: nat, p: nat | d < |docs| && p < |docs[d]| - 1
                           && Accept(lower, docs[d][p]) == Some(names[c.key[0] - 1])
                           && Accept(lower, docs[d][p + 1]) == Some(names[c.key[1] - 1]) :: (d, p)|
  {
    PairKeys(f, s, c);
    PairEntry(names, RawWindows(lower, 2, docs), f.bi, c);
    PlacesOfPair(lower, docs, names[c.key[0] - 1], names[c.key[1] - 1]);
  }

  lemma TripleSpelled(
    tri: seq<Count>, kept: set<Gram>, grams: seq<Gram>, names: seq<Word>, raw: seq<seq<Word>>, c: Count)
    requires Exact(tri, Admit(kept, grams)) && c in tri
    requires Distinct(names) && SpellsAll(names, grams, raw)
    ensures |c.key| == 3 && Admitted(kept, c.key) && Spells(names, c.key, WordsOf(names, c.key))
    ensures c.weight == multiset(raw)[WordsOf(names, c.key)]
  {
    var i :| 0 <= i < |tri| && tri[i] == c;
    assert HasKey(tri, c.key) && Listed(tri, Admit(kept, grams), c.key);
    AdmitCounts(kept, grams, c.key);
    SpelledMember(names, grams, raw, c.key);
    SpelledCopies(names, grams, raw, c.key, WordsOf(names, c.key));
  }

  lemma TripleEntry(
    tri: seq<Count>, kept: set<Gram>, grams: seq<Gram>, names: seq<Word>, raw: seq<seq<Word>>, c: Count)
    requires Exact(tri, Admit(kept, grams)) && c in tri
    requires Distinct(names) && SpellsAll(names, grams, raw)
    ensures |c.key| == 3 && 1 <= c.key[0] <= |names| && 1 <= c.key[1] <= |names| && 1 <= c.key[2] <= |names|
    ensures [c.key[0], c.key[1]] in kept || [c.key[1], c.key[2]] in kept
    ensures c.weight == multiset(raw)[[names[c.key[0] - 1], names[c.key[1] - 1], names[c.key[2] - 1]]]
  {
    TripleSpelled(tri, kept, grams, names, raw, c);
    ThreeWords(names, kept, c.key);
  }

  lemma ThreeWords(names: seq<Word>, kept: set<Gram>, g: Gram)
    requires |g| == 3 && Admitted(kept, g) && Spells(names, g, WordsOf(names, g))
    ensures 1 <= g[0] <= |names| && 1 <= g[1] <= |names| && 1 <= g[2] <= |names|
    ensures [g[0], g[1]] in kept || [g[1], g[2]] in kept
    ensures WordsOf(names, g) == [names[g[0] - 1], names[g[1] - 1], names[g[2] - 1]]
  {
    assert g[..2] == [g[0], g[1]] && g[1..] == [g[1], g[2]];
  }

  /** tri.bin, which is the exact table of the admitted triples (`AdmittedExactly`): one of the two
      pairs in a triple of words is kept, and its weight is the number of places at which the three
      words stand side by side. */
  lemma TripleCounts(
    tri: seq<Count>, kept: set<Gram>, corpus: seq<Phrase>, lower: seq<nat> -> Word, docs: seq<seq<Token>>,
    names: seq<Word>, c: Count)
    requires Exact(tri, Triples(kept, corpus)) && c in tri
    requires Distinct(names) && SpellsAll(names, AllWindows(3, corpus), RawWindows(lower, 3, docs))
    ensures |c.key| == 3 && 1 <= c.key[0] <= |names| && 1 <= c.key[1] <= |names| && 1 <= c.key[2] <= |names|
    ensures [c.key[0], c.key[1]] in kept || [c.key[1], c.key[2]] in kept
    ensures c.weight == |set d: nat, p: nat | d < |docs| && p < |docs[d]| - 2
                           && Accept(lower, docs[d][p]) == Some(names[c.key[0] - 1])
                           && Accept(lower, docs[d][p + 1]) == Some(names[c.key[1] - 1])
                           && Accept(lower, docs[d][p + 2]) == Some(names[c.key[2] - 1]) :: (d, p)|
  {
    TripleEntry(tri, kept, AllWindows(3, corpus), names, RawWindows(lower, 3, docs), c);
    PlacesOfTriple(lower, docs, names[c.key[0] - 1], names[c.key[1] - 1], names[c.key[2] - 1]);
  }

  /** The table of a run is exact, and numbers in it stand for the words of the raw documents. */
  lemma AdmittedExactly(
    f: Files, s: Settings, kept: set<Gram>, lower: seq<nat> -> Word, terms: Word -> seq<Term>,
    docs: seq<seq<Token>>, names: seq<Word>, lemNames: seq<Term>)
    requires Extracted(f, s, kept) && Readable(f, lower, terms, docs, names, lemNames)
    ensures Exact(f.tri, Triples(kept, f.corpus))
    ensures Distinct(names) && SpellsAll(names, AllWindows(3, f.corpus), RawWindows(lower, 3, docs))
  {
    TriplesCountable(f.lems, f.corpus, kept);
    SmallIsExact(f.tri, Triples(kept, f.corpus));
  }

  /** lemfreq.bin: every count is the number of documents with a word that has the term. */
  lemma TermDocuments(
    f: Files, s: Settings, lower: seq<nat> -> Word, terms: Word -> seq<Term>,
    docs: seq<seq<Token>>, names: seq<Word>, lemNames: seq<Term>, m: LemFreq)
    requires FromDocuments(f, s, lower, terms, docs, names, lemNames) && m in f.lemfreq
    ensures m.weight == |set d: nat | d < |docs| && (exists p | 0 <= p < |docs[d]| ::
                  Accept(lower, docs[d][p]).Some? && m.str in terms(Accept(lower, docs[d][p]).value)) :: d|
  {
    DocumentsOfTerm(lower, terms, docs, m.str);
  }

  lemma TermEntry(lemNames: seq<Term>, terms: Word -> seq<Term>, texts: seq<seq<seq<Word>>>, file: seq<Count>, c: Count)
    requires CountsTermDocuments(file, lemNames, terms, texts) && c in file
    ensures forall k | 0 <= k < |c.key| :: 1 <= c.key[k] <= |lemNames|
    ensures |c.key| == 2 ==> c.weight == TermFrequency(terms, [lemNames[c.key[0] - 1], lemNames[c.key[1] - 1]], texts)
    ensures |c.key| == 3 ==>
              c.weight == TermFrequency(
                            terms, [lemNames[c.key[0] - 1], lemNames[c.key[1] - 1], lemNames[c.key[2] - 1]], texts)
  {
    assert CountsTermDocument(c, lemNames, terms, texts);
    if |c.key| == 2 {
      assert WordsOf(lemNames, c.key) == [lemNames[c.key[0] - 1], lemNames[c.key[1] - 1]];
    } else if |c.key| == 3 {
      assert WordsOf(lemNames, c.key) == [lemNames[c.key[0] - 1], lemNames[c.key[1] - 1], lemNames[c.key[2] - 1]];
    }
  }

  lemma GroupOfKey(file: seq<Count>, lems: LemTable, docs: seq<seq<Phrase>>, groups: seq<Group>, n: nat, c: Count)
    requires CountsDocuments(file, lems, docs, groups) && c in file
    requires forall i | 0 <= i < |groups| :: |groups[i].lids| == n
    ensures |c.key| == n
  {
    var i :| 0 <= i < |file| && file[i] == c;
    assert HasKey(file, c.key);
    var k :| 0 <= k < |groups| && groups[k].lids == c.key;
  }

  lemma FrequencyKeys(f: Files, s: Settings, kept: set<Gram>)
    requires Extracted(f, s, kept)
    ensures forall c | c in f.bifreq :: |c.key| == 2
    ensures forall c | c in f.trifreq :: |c.key| == 3
  {
    var docs := Divide(f.corpus).docs;
    PairFileAscends(f.lems, f.corpus, |f.lemids|, s.pairThreshold, f.extended2);
    forall c | c in f.bifreq ensures |c.key| == 2 {
      GroupOfKey(f.bifreq, f.lems, docs, f.extended2, 2, c);
    }
    TripleFileAscends(f.lems, f.corpus, kept, |f.lemids|, s.tripleThreshold, f.extended3);
    forall c | c in f.trifreq ensures |c.key| == 3 {
      GroupOfKey(f.trifreq, f.lems, docs, f.extended3, 3, c);
    }
  }

  /** bifreq.bin: every count is the number of documents in which two words side by side have the
      two terms. */
  lemma PairDocuments(
    f: Files, s: Settings, kept: set<Gram>, lower: seq<nat> -> Word, terms: Word -> seq<Term>,
    docs: seq<seq<Token>>, names: seq<Word>, lemNames: seq<Term>, c: Count)
    requires Extracted(f, s, kept) && FromDocuments(f, s, lower, terms, docs, names, lemNames) && c in f.bifreq
    ensures |c.key| == 2 && 1 <= c.key[0] <= |lemNames| && 1 <= c.key[1] <= |lemNames|
    ensures var t, t' := lemNames[c.key[0] - 1], lemNames[c.key[1] - 1];
            c.weight == |set d: nat | d < |docs| && (exists p | 0 <= p < |docs[d]| - 1 ::
                  && Accept(lower, docs[d][p]).Some? && t in terms(Accept(lower, docs[d][p]).value)
                  && Accept(lower, docs[d][p + 1]).Some? && t' in terms(Accept(lower, docs[d][p + 1]).value)) :: d|
  {
    FrequencyKeys(f, s, kept);
    TermEntry(lemNames, terms, NonEmptyRuns(lower, docs), f.bifreq, c);
    DocumentsOfPair(lower, terms, docs, lemNames[c.key[0] - 1], lemNames[c.key[1] - 1]);
  }

  /** trifreq.bin: every count is the number of documents in which three words side by side have
      the three terms. */
  lemma TripleDocuments(
    f: Files, s: Settings, kept: set<Gram>, lower: seq<nat> -> Word, terms: Word -> seq<Term>,
    docs: seq<seq<Token>>, names: seq<Word>, lemNames: seq<Term>, c: Count)
    requires Extracted(f, s, kept) && FromDocuments(f, s, lower, terms, docs, names, lemNames) && c in f.trifreq
    ensures |c.key| == 3 && forall k | 0 <= k < 3 :: 1 <= c.key[k] <= |lemNames|
    ensures var t, t', t'' := lemNames[c.key[0] - 1], lemNames[c.key[1] - 1], lemNames[c.key[2] - 1];
            c.weight == |set d: nat | d < |docs| && (exists p | 0 <= p < |docs[d]| - 2 ::
                  && Accept(lower, docs[d][p]).Some? && t in terms(Accept(lower, docs[d][p]).value)
                  && Accept(lower, docs[d][p + 1]).Some? && t' in terms(Accept(lower, docs[d][p + 1]).value)
                  && Accept(lower, docs[d][p + 2]).Some? && t'' in terms(Accept(lower, docs[d][p + 2]).value)) :: d|
  {
    FrequencyKeys(f, s, kept);
    TermEntry(lemNames, terms, NonEmptyRuns(lower, docs), f.trifreq, c);
    DocumentsOfTriple(lower, terms, docs, lemNames[c.key[0] - 1], lemNames[c.key[1] - 1], lemNames[c.key[2] - 1]);
  }

  lemma NextWithWords(lower: seq<nat> -> Word, docs: seq<seq<Token>>, m: nat)
    requires m + 1 == |docs|
    ensures |set d: nat | d < |docs| && (exists p | 0 <= p < |docs[d]| :: Accept(lower, docs[d][p]).Some?) :: d| ==
            |set d: nat | d < |docs[..m]| && (exists p | 0 <= p < |docs[..m][d]| ::
                            Accept(lower, docs[..m][d][p]).Some?) :: d|
            + if exists p | 0 <= p < |docs[m]| :: Accept(lower, docs[m][p]).Some? then 1 else 0
  {
    var front := docs[..m];
    var before := set d: nat | d < |front| && (exists p | 0 <= p < |front[d]| :: Accept(lower, front[d][p]).Some?) :: d;
    var after := set d: nat | d < |docs| && (exists p | 0 <= p < |docs[d]| :: Accept(lower, docs[d][p]).Some?) :: d;
    if exists p | 0 <= p < |docs[m]| :: Accept(lower, docs[m][p]).Some? {
      assert after == before + {m};
    } else {
      assert after == before;
    }
  }

  /** total_count.txt: the number of documents with an accepted word. */
  lemma {:induction false} DocumentsWithWords(lower: seq<nat> -> Word, docs: seq<seq<Token>>)
    ensures |NonEmptyRuns(lower, docs)| ==
            |set d: nat | d < |docs| && (exists p | 0 <= p < |docs[d]| :: Accept(lower, docs[d][p]).Some?) :: d|
  {
    if docs != [] {
      var m := |docs| - 1;
      DocumentsWithWords(lower, docs[..m]);
      SomeWord(lower, docs[m]);
      NextWithWords(lower, docs, m);
    }
  }

  lemma SomeWord(lower: seq<nat> -> Word, doc: seq<Token>)
    ensures RunsOfWords(lower, doc) != [] <==> exists p | 0 <= p < |doc| :: Accept(lower, doc[p]).Some?
  {
    RunsAreMaximal(lower, 1, doc);
    var runs, grams := RunsOfWords(lower, doc), AcceptedWindows(lower, 1, doc);
    if runs != [] {
      assert runs[|runs| - 1] in runs && runs[|runs| - 1] != [];
      assert Windows(1, runs[|runs| - 1]) != [];
      assert grams != [] && grams[0] in grams;
      var p := AcceptedSomewhere(lower, 1, doc, |doc|, grams[0]);
      assert Accept(lower, doc[p + 0]) == Some(grams[0][0]);
    }
    if p: nat :| p < |doc| && Accept(lower, doc[p]).Some? {
      var w := Accept(lower, doc[p]).value;
      WordAt(lower, doc, p, [w], w);
      DocumentCounted(lower, doc, [w]);
      assert p in Starts(lower, doc, [w], |doc|);
      assert [w] in multiset(grams);
    }
  }
}
