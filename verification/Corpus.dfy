/** The corpus as a stream of phrases in which an empty phrase ends a document. */
module Corpus {
  import opened Wrappers

  type Phrase = seq<nat>

  function Window<T>(n: nat, w: seq<T>, p: nat): seq<T>
    requires p + n <= |w|
  {
    w[p..p + n]
  }

  lemma WindowPart<T>(n: nat, w: seq<T>, p: nat, a: nat, b: nat)
    requires p + n <= |w| && a <= b <= n
    ensures Window(n, w, p)[a..b] == Window(b - a, w, a + p)
  {
    forall k | 0 <= k < b - a ensures Window(n, w, p)[a..b][k] == Window(b - a, w, a + p)[k] {
      assert Window(n, w, p)[a + k] == w[p + (a + k)];
    }
  }

  /** The windows of length `n` of `w` that start before `i`. */
  ghost function WindowsTo<T>(n: nat, w: seq<T>, i: nat): seq<seq<T>>
    requires i + n <= |w| + 1
  {
    if i == 0 then [] else WindowsTo(n, w, i - 1) + [Window(n, w, i - 1)]
  }

  ghost function Windows<T>(n: nat, w: seq<T>): seq<seq<T>> {
    if |w| < n then [] else WindowsTo(n, w, |w| - n + 1)
  }

  /** The windows of all phrases; none reaches across the end of a phrase. */
  ghost function AllWindows<T>(n: nat, stream: seq<seq<T>>): seq<seq<T>> {
    if stream == [] then []
    else
      AllWindows(n, stream[..|stream| - 1]) + Windows(n, stream[|stream| - 1])
  }

  lemma AllWindowsSnoc<T>(n: nat, stream: seq<seq<T>>, w: seq<T>)
    ensures AllWindows(n, stream + [w]) == AllWindows(n, stream) + Windows(n, w)
  {
    assert (stream + [w])[..|stream|] == stream;
  }

  lemma {:induction false} AllWindowsConcat<T>(n: nat, s: seq<seq<T>>, t: seq<seq<T>>)
    ensures AllWindows(n, s + t) == AllWindows(n, s) + AllWindows(n, t)
    decreases |t|
  {
    if t == [] {
      assert s + t == s;
    } else {
      var m := |t| - 1;
      assert s + t == (s + t[..m]) + [t[m]];
      AllWindowsSnoc(n, s + t[..m], t[m]);
      AllWindowsConcat(n, s, t[..m]);
      Regroup(AllWindows(n, s), AllWindows(n, t[..m]), Windows(n, t[m]));
    }
  }

  lemma {:induction false} WindowsLonger<T>(n: nat, w: seq<T>, x: T, i: nat)
    requires i + n <= |w| + 1
    ensures WindowsTo(n, w + [x], i) == WindowsTo(n, w, i)
  {
    if i > 0 {
      WindowsLonger(n, w, x, i - 1);
      assert Window(n, w + [x], i - 1) == Window(n, w, i - 1);
    }
  }

  /** The window at the end of `w`, if `w` is long enough. */
  ghost function LastOf<T>(n: nat, w: seq<T>): seq<seq<T>> {
    if |w| >= n then [w[|w| - n..]] else []
  }

  /** One more word completes at most one window. */
  lemma WindowsSnoc<T>(n: nat, w: seq<T>, x: T)
    requires n > 0
    ensures Windows(n, w + [x]) == Windows(n, w) + LastOf(n, w + [x])
  {
    if |w| + 1 >= n {
      WindowsLonger(n, w, x, |w| + 1 - n);
      assert Window(n, w + [x], |w| + 1 - n) == (w + [x])[|w| + 1 - n..];
    }
  }

  lemma {:induction false} InWindows<T>(n: nat, w: seq<T>, i: nat, g: seq<T>)
    requires i + n <= |w| + 1
    ensures g in WindowsTo(n, w, i) <==> exists p :: 0 <= p < i && Window(n, w, p) == g
  {
    if i > 0 {
      InWindows(n, w, i - 1, g);
      if g == Window(n, w, i - 1) {
        assert g in WindowsTo(n, w, i);
      }
    }
  }

  lemma {:induction false} WindowsHaveLength<T>(n: nat, stream: seq<seq<T>>)
    ensures forall g | g in AllWindows(n, stream) :: |g| == n
  {
    if stream != [] {
      var w := stream[|stream| - 1];
      WindowsHaveLength(n, stream[..|stream| - 1]);
      forall g | g in Windows(n, w) ensures |g| == n {
        InWindows(n, w, |w| - n + 1, g);
      }
    }
  }

  // Documents ------------------------------------------------------------------

  /** Finished documents, and the phrases after the last empty one. */
  datatype Division<T> = Division(docs: seq<seq<seq<T>>>, open: seq<seq<T>>)

  ghost function Divide<T>(stream: seq<seq<T>>): Division<T> {
    if stream == [] then Division([], [])
    else
      var d, w := Divide(stream[..|stream| - 1]), stream[|stream| - 1];
      if w == [] then Division(d.docs + [d.open], []) else Division(d.docs, d.open + [w])
  }

  lemma DivideSnoc<T>(stream: seq<seq<T>>, w: seq<T>)
    ensures var d := Divide(stream);
            Divide(stream + [w]) == if w == [] then Division(d.docs + [d.open], []) else Division(d.docs, d.open + [w])
  {
    assert (stream + [w])[..|stream|] == stream;
  }

  /** The stream ends where a document ends, as `update` leaves it. */
  ghost predicate Finished<T>(stream: seq<seq<T>>) {
    Divide(stream).open == []
  }

  // Tokens -----------------------------------------------------------------------

  /** A word of `docimage`: its characters and what `IsPunct` says of it. */
  datatype Token = Token(punct: bool, text: seq<nat>)

  type Word = seq<nat>

  /** The filter of `update_word`; `lower` is `strtolower` followed by the conversion to UTF-8. */
  function Accept(lower: seq<nat> -> Word, t: Token): (w: Option<Word>)
    ensures w.Some? <==> !t.punct && |t.text| <= 50 && forall i | 0 <= i < |t.text| :: 1024 <= t.text[i] <= 1105
    ensures w.Some? ==> w.value == lower(t.text)
  {
    if t.punct then None
    else if |t.text| > 50 then None
    else if exists i | 0 <= i < |t.text| :: t.text[i] < 1024 || t.text[i] > 1105 then None
    else Some(lower(t.text))
  }

  /** The finished runs of accepted words of a document read so far, and the current one. */
  datatype RunState = RunState(closed: seq<seq<Word>>, cur: seq<Word>)

  /** The run `cur` unless it is empty. */
  function Piece(cur: seq<Word>): seq<seq<Word>> {
    if cur == [] then [] else [cur]
  }

  function Close(s: RunState): seq<seq<Word>> {
    s.closed + Piece(s.cur)
  }

  function AfterToken(lower: seq<nat> -> Word, s: RunState, t: Token): RunState {
    match Accept(lower, t)
    case None => RunState(Close(s), [])
    case Some(w) => s.(cur := s.cur + [w])
  }

  ghost function Scan(lower: seq<nat> -> Word, doc: seq<Token>): RunState {
    if doc == [] then RunState([], [])
    else AfterToken(lower, Scan(lower, doc[..|doc| - 1]), doc[|doc| - 1])
  }

  lemma ScanNext(lower: seq<nat> -> Word, doc: seq<Token>, i: nat)
    requires i < |doc|
    ensures Scan(lower, doc[..i + 1]) == AfterToken(lower, Scan(lower, doc[..i]), doc[i])
  {
    assert doc[..i + 1][..i] == doc[..i];
  }

  ghost function RunsOfWords(lower: seq<nat> -> Word, doc: seq<Token>): seq<seq<Word>> {
    Close(Scan(lower, doc))
  }

  /** What `update` adds to the stream for one document. */
  ghost function Encode(lower: seq<nat> -> Word, doc: seq<Token>): seq<seq<Word>> {
    var runs := RunsOfWords(lower, doc);
    if runs == [] then [] else runs + [[]]
  }

  ghost function EncodeAll(lower: seq<nat> -> Word, docs: seq<seq<Token>>): seq<seq<Word>> {
    if docs == [] then []
    else
      EncodeAll(lower, docs[..|docs| - 1]) + Encode(lower, docs[|docs| - 1])
  }

  /** The words of `tokens` if all are accepted. */
  ghost function AllWords(lower: seq<nat> -> Word, tokens: seq<Token>): Option<seq<Word>> {
    if tokens == [] then Some([])
    else
      match (AllWords(lower, tokens[..|tokens| - 1]), Accept(lower, tokens[|tokens| - 1]))
      case (Some(ws), Some(w)) => Some(ws + [w])
      case _ => None
  }

  ghost function AcceptedAt(lower: seq<nat> -> Word, n: nat, doc: seq<Token>, p: nat): seq<seq<Word>>
    requires p + n <= |doc|
  {
    match AllWords(lower, Window(n, doc, p))
    case Some(ws) => [ws]
    case None => []
  }

  /** The `n` consecutive accepted words that start before `i`, for every start. */
  ghost function AcceptedTo(lower: seq<nat> -> Word, n: nat, doc: seq<Token>, i: nat): seq<seq<Word>>
    requires i + n <= |doc| + 1
  {
    if i == 0 then [] else AcceptedTo(lower, n, doc, i - 1) + AcceptedAt(lower, n, doc, i - 1)
  }

  ghost function AcceptedWindows(lower: seq<nat> -> Word, n: nat, doc: seq<Token>): seq<seq<Word>> {
    if |doc| < n then [] else AcceptedTo(lower, n, doc, |doc| - n + 1)
  }

  lemma {:induction false} AcceptedLonger(lower: seq<nat> -> Word, n: nat, doc: seq<Token>, t: Token, i: nat)
    requires i + n <= |doc| + 1
    ensures AcceptedTo(lower, n, doc + [t], i) == AcceptedTo(lower, n, doc, i)
  {
    if i > 0 {
      AcceptedLonger(lower, n, doc, t, i - 1);
      assert Window(n, doc + [t], i - 1) == Window(n, doc, i - 1);
    }
  }

  lemma {:induction false} WordsOfSuffix(lower: seq<nat> -> Word, tokens: seq<Token>, j: nat)
    requires j <= |tokens| && AllWords(lower, tokens).Some?
    ensures |AllWords(lower, tokens).value| == |tokens|
    ensures AllWords(lower, tokens[j..]) == Some(AllWords(lower, tokens).value[j..])
  {
    if tokens == [] {
    } else {
      var m := |tokens| - 1;
      WordsOfSuffix(lower, tokens[..m], if j > m then m else j);
      var ws := AllWords(lower, tokens).value;
      if j <= m {
        assert tokens[j..][..m - j] == tokens[..m][j..];
        assert ws[j..] == ws[..m][j..] + [ws[m]];
      } else {
        assert tokens[j..] == [] && ws[j..] == [];
      }
    }
  }

  lemma {:induction false} RejectedWord(lower: seq<nat> -> Word, tokens: seq<Token>, k: nat)
    requires k < |tokens| && Accept(lower, tokens[k]).None?
    ensures AllWords(lower, tokens).None?
  {
    if k < |tokens| - 1 {
      RejectedWord(lower, tokens[..|tokens| - 1], k);
    }
  }

  /** The current run is the longest accepted suffix of what was read. */
  ghost predicate LongestSuffix(lower: seq<nat> -> Word, doc: seq<Token>, cur: seq<Word>) {
    && |cur| <= |doc|
    && AllWords(lower, doc[|doc| - |cur|..]) == Some(cur)
    && (|cur| < |doc| ==> Accept(lower, doc[|doc| - |cur| - 1]).None?)
  }

  /** Runs are maximal: for every `n`, the windows of the runs of a document are its `n`
      consecutive accepted words, each in its place and none besides. */
  lemma RunsAreMaximal(lower: seq<nat> -> Word, n: nat, doc: seq<Token>)
    requires n > 0
    ensures AllWindows(n, RunsOfWords(lower, doc)) == AcceptedWindows(lower, n, doc)
    ensures forall r | r in RunsOfWords(lower, doc) :: r != []
  {
    ScanWindows(lower, n, doc);
    CloseWindows(n, Scan(lower, doc));
  }

  lemma CloseWindows(n: nat, s: RunState)
    requires n > 0
    ensures AllWindows(n, Close(s)) == AllWindows(n, s.closed) + Windows(n, s.cur)
  {
    if s.cur == [] {
      assert Close(s) == s.closed;
    } else {
      AllWindowsSnoc(n, s.closed, s.cur);
    }
  }

  /** Windows of runs and accepted windows agree, and the current run is what it should be. */
  ghost predicate Scanned(lower: seq<nat> -> Word, n: nat, doc: seq<Token>, s: RunState) {
    && AllWindows(n, s.closed) + Windows(n, s.cur) == AcceptedWindows(lower, n, doc)
    && LongestSuffix(lower, doc, s.cur)
    && (forall r | r in s.closed :: r != [])
  }

  lemma {:induction false} ScanWindows(lower: seq<nat> -> Word, n: nat, doc: seq<Token>)
    requires n > 0
    ensures Scanned(lower, n, doc, Scan(lower, doc))
  {
    if doc != [] {
      var m := |doc| - 1;
      var s := Scan(lower, doc[..m]);
      assert doc == doc[..m] + [doc[m]];
      ScanWindows(lower, n, doc[..m]);
      match Accept(lower, doc[m])
      case None => ScanRejected(lower, n, doc[..m], doc[m], s);
      case Some(w) => ScanAccepted(lower, n, doc[..m], doc[m], s, w);
    }
  }

  /** The window at the end of the document, if it is accepted. */
  ghost function AcceptedEnd(lower: seq<nat> -> Word, n: nat, doc: seq<Token>): seq<seq<Word>> {
    if |doc| >= n then AcceptedAt(lower, n, doc, |doc| - n) else []
  }

  lemma AcceptedStep(lower: seq<nat> -> Word, n: nat, doc: seq<Token>, p: nat)
    requires p + n == |doc|
    ensures AcceptedWindows(lower, n, doc) == AcceptedTo(lower, n, doc, p) + AcceptedAt(lower, n, doc, p)
  {
  }

  /** The windows before the last one are those of the tokens before the last one. */
  lemma AcceptedFront(lower: seq<nat> -> Word, n: nat, doc: seq<Token>, front: seq<Token>, p: nat)
    requires 0 < n && p + n == |doc| && doc != [] && front == doc[..|doc| - 1]
    ensures AcceptedTo(lower, n, doc, p) == AcceptedWindows(lower, n, front)
  {
    AcceptedLonger(lower, n, front, doc[|doc| - 1], p);
    assert front + [doc[|doc| - 1]] == doc;
    if p == 0 {
      assert |front| < n;
    } else {
      assert p == |front| - n + 1;
    }
  }

  lemma AcceptedSnoc(lower: seq<nat> -> Word, n: nat, doc: seq<Token>, before: seq<seq<Word>>)
    requires n > 0 && doc != [] && before == AcceptedWindows(lower, n, doc[..|doc| - 1])
    ensures AcceptedWindows(lower, n, doc) == before + AcceptedEnd(lower, n, doc)
  {
    if |doc| >= n {
      var p: nat := |doc| - n;
      AcceptedStep(lower, n, doc, p);
      AcceptedFront(lower, n, doc, doc[..|doc| - 1], p);
    }
  }

  /** A rejected word completes no window, and no run reaches across it. */
  lemma RejectedEnd(lower: seq<nat> -> Word, n: nat, doc: seq<Token>)
    requires 0 < n && doc != [] && Accept(lower, doc[|doc| - 1]).None?
    ensures AcceptedEnd(lower, n, doc) == []
  {
    if |doc| >= n {
      RejectedWord(lower, Window(n, doc, |doc| - n), n - 1);
    }
  }

  lemma RejectedSuffix(lower: seq<nat> -> Word, doc: seq<Token>, t: Token)
    requires Accept(lower, t).None?
    ensures LongestSuffix(lower, doc + [t], [])
  {
    assert (doc + [t])[|doc| + 1..] == [];
  }

  lemma RejectedWindows(lower: seq<nat> -> Word, n: nat, doc: seq<Token>, t: Token)
    requires 0 < n && Accept(lower, t).None?
    ensures AcceptedWindows(lower, n, doc + [t]) == AcceptedWindows(lower, n, doc)
  {
    assert (doc + [t])[..|doc|] == doc;
    AcceptedSnoc(lower, n, doc + [t], AcceptedWindows(lower, n, doc));
    RejectedEnd(lower, n, doc + [t]);
  }

  /** Closing the current run changes none of the windows, and leaves no run empty. */
  lemma ClosedRuns(n: nat, s: RunState, windows: seq<seq<Word>>)
    requires n > 0 && AllWindows(n, s.closed) + Windows(n, s.cur) == windows
    requires forall r | r in s.closed :: r != []
    ensures AllWindows(n, Close(s)) + Windows(n, []) == windows
    ensures forall r | r in Close(s) :: r != []
  {
    CloseWindows(n, s);
    NoWindows(n);
  }

  lemma ScanRejected(lower: seq<nat> -> Word, n: nat, doc: seq<Token>, t: Token, s: RunState)
    requires n > 0 && Scanned(lower, n, doc, s) && Accept(lower, t).None?
    ensures Scanned(lower, n, doc + [t], RunState(Close(s), []))
  {
    RejectedWindows(lower, n, doc, t);
    ClosedRuns(n, s, AcceptedWindows(lower, n, doc));
    RejectedSuffix(lower, doc, t);
  }

  lemma NoWindows(n: nat)
    requires n > 0
    ensures Windows<Word>(n, []) == []
  {
  }

  lemma ScanAccepted(lower: seq<nat> -> Word, n: nat, doc: seq<Token>, t: Token, s: RunState, w: Word)
    requires n > 0 && Scanned(lower, n, doc, s) && Accept(lower, t) == Some(w)
    ensures Scanned(lower, n, doc + [t], s.(cur := s.cur + [w]))
  {
    var cur := s.cur + [w];
    SuffixGrows(lower, doc, t, s.cur, w);
    WindowsSnoc(n, s.cur, w);
    assert AcceptedWindows(lower, n, doc + [t]) == AcceptedWindows(lower, n, doc) + LastOf(n, cur) by {
      assert (doc + [t])[..|doc|] == doc;
      AcceptedSnoc(lower, n, doc + [t], AcceptedWindows(lower, n, doc));
      LastWindow(lower, n, doc + [t], cur);
    }
    Regroup(AllWindows(n, s.closed), Windows(n, s.cur), LastOf(n, cur));
  }

  lemma Regroup<T>(a: seq<T>, b: seq<T>, c: seq<T>)
    ensures a + (b + c) == (a + b) + c
  {
  }

  lemma SuffixGrows(lower: seq<nat> -> Word, doc: seq<Token>, t: Token, cur: seq<Word>, w: Word)
    requires LongestSuffix(lower, doc, cur) && Accept(lower, t) == Some(w)
    ensures LongestSuffix(lower, doc + [t], cur + [w])
  {
    var k := |doc| - |cur|;
    assert (doc + [t])[k..] == doc[k..] + [t];
    assert (doc + [t])[k..][..|cur|] == doc[k..];
  }

  lemma LastInTail<T>(n: nat, s: seq<T>, k: nat, j: nat)
    requires k + j + n == |s|
    ensures s[k..][j..] == Window(n, s, |s| - n)
  {
  }

  /** A window at the end of the document and inside the current run. */
  lemma WindowInRun(lower: seq<nat> -> Word, n: nat, doc: seq<Token>, cur: seq<Word>)
    requires LongestSuffix(lower, doc, cur) && n <= |cur|
    ensures AllWords(lower, Window(n, doc, |doc| - n)) == Some(cur[|cur| - n..])
  {
    var k, j := |doc| - |cur|, |cur| - n;
    var tail := doc[k..];
    assert AllWords(lower, tail[j..]) == Some(cur[j..]) by {
      WordsOfSuffix(lower, tail, j);
    }
    LastInTail(n, doc, k, j);
  }

  /** The last window of a document is accepted if it lies in the current run. */
  lemma LastWindow(lower: seq<nat> -> Word, n: nat, doc: seq<Token>, cur: seq<Word>)
    requires 0 < n && LongestSuffix(lower, doc, cur)
    ensures AcceptedEnd(lower, n, doc) == LastOf(n, cur)
  {
    if |cur| >= n {
      WindowInRun(lower, n, doc, cur);
    } else if |doc| >= n {
      var p := |doc| - n;
      RejectedWord(lower, Window(n, doc, p), |doc| - |cur| - 1 - p);
    }
  }

  /** Dividing the written stream at empty phrases gives back the documents that have an
      accepted word, each as its runs. */
  ghost function NonEmptyRuns(lower: seq<nat> -> Word, docs: seq<seq<Token>>): seq<seq<seq<Word>>> {
    if docs == [] then []
    else
      var runs := RunsOfWords(lower, docs[|docs| - 1]);
      NonEmptyRuns(lower, docs[..|docs| - 1]) + if runs == [] then [] else [runs]
  }

  lemma {:induction false} DivideRuns<T>(stream: seq<seq<T>>, runs: seq<seq<T>>)
    requires forall r | r in runs :: r != []
    ensures Divide(stream + runs) == Division(Divide(stream).docs, Divide(stream).open + runs)
    decreases |runs|
  {
    if runs == [] {
      assert stream + runs == stream;
    } else {
      var m := |runs| - 1;
      assert stream + runs == (stream + runs[..m]) + [runs[m]];
      assert runs[m] in runs && forall r | r in runs[..m] :: r in runs;
      DivideRuns(stream, runs[..m]);
      DivideSnoc(stream + runs[..m], runs[m]);
      assert Divide(stream).open + runs == (Divide(stream).open + runs[..m]) + [runs[m]];
    }
  }

  lemma DivideDocument<T>(stream: seq<seq<T>>, runs: seq<seq<T>>)
    requires runs != [] && forall r | r in runs :: r != []
    requires Divide(stream).open == []
    ensures Divide(stream + (runs + [[]])) == Division(Divide(stream).docs + [runs], [])
  {
    DivideRuns(stream, runs);
    DivideSnoc(stream + runs, []);
    assert stream + (runs + [[]]) == (stream + runs) + [[]];
    assert [] + runs == runs;
  }

  lemma {:induction false} EncodingRoundTrip(lower: seq<nat> -> Word, docs: seq<seq<Token>>)
    ensures Divide(EncodeAll(lower, docs)) == Division(NonEmptyRuns(lower, docs), [])
  {
    if docs != [] {
      var m := |docs| - 1;
      EncodingRoundTrip(lower, docs[..m]);
      RunsAreMaximal(lower, 1, docs[m]);
      var before, runs := EncodeAll(lower, docs[..m]), RunsOfWords(lower, docs[m]);
      if runs == [] {
        assert before + [] == before;
      } else {
        DivideDocument(before, runs);
      }
    }
  }

  /** The `n` consecutive accepted words of all documents. */
  ghost function RawWindows(lower: seq<nat> -> Word, n: nat, docs: seq<seq<Token>>): seq<seq<Word>> {
    if docs == [] then []
    else
      RawWindows(lower, n, docs[..|docs| - 1]) + AcceptedWindows(lower, n, docs[|docs| - 1])
  }

  /** The windows of the written stream are those of the raw documents. */
  lemma {:induction false} EncodedWindows(lower: seq<nat> -> Word, n: nat, docs: seq<seq<Token>>)
    requires n > 0
    ensures AllWindows(n, EncodeAll(lower, docs)) == RawWindows(lower, n, docs)
  {
    if docs != [] {
      var m := |docs| - 1;
      EncodedWindows(lower, n, docs[..m]);
      RunsAreMaximal(lower, n, docs[m]);
      var runs := RunsOfWords(lower, docs[m]);
      AllWindowsSnoc(n, runs, []);
      AllWindowsConcat(n, EncodeAll(lower, docs[..m]), Encode(lower, docs[m]));
    }
  }
}
