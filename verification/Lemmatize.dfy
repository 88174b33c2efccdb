/** `lemmatize` of src/colloc.cpp: terms become lemma ids, words become lists of them. The
    lemmatizer itself is the function `terms`. */
module Lemmatize {
  import opened Bags
  import opened Streams
  import opened Corpus
  import opened Convert
  import opened Lemmer
  import opened Filters

  type Term = seq<nat>

  ghost predicate TermNumber(lemid: map<Term, nat>, names: seq<Term>, i: nat)
    requires i < |names|
  {
    names[i] in lemid && lemid[names[i]] == i + 1
  }

  /** `names` lists the keys of `lemid` in the order of their ids 1, 2, ... */
  ghost predicate Interned(lemid: map<Term, nat>, names: seq<Term>) {
    && |lemid| == |names|
    && (forall i | 0 <= i < |names| :: TermNumber(lemid, names, i))
    && (forall t | t in lemid :: t in names)
  }

  /** Different ids name different terms. */
  lemma TermsDistinct(lemid: map<Term, nat>, names: seq<Term>)
    requires Interned(lemid, names)
    ensures Distinct(names)
  {
    forall i, j | 0 <= i < j < |names| ensures names[i] != names[j] {
      assert TermNumber(lemid, names, i) && TermNumber(lemid, names, j);
    }
  }

  lemma InternNew(lemid: map<Term, nat>, names: seq<Term>, t: Term)
    requires Interned(lemid, names) && t !in lemid
    ensures Interned(lemid[t := |lemid| + 1], names + [t])
  {
    var after, more := lemid[t := |lemid| + 1], names + [t];
    forall i | 0 <= i < |more| ensures TermNumber(after, more, i) {
      assert i < |names| ==> TermNumber(lemid, names, i);
    }
  }

  /** Nothing but a known term has one of the first numbers. */
  lemma NumberOfTerm(lemid: map<Term, nat>, names: seq<Term>, t: Term)
    requires Interned(lemid, names)
    ensures t in lemid <==> t in names
    ensures t in lemid ==> 1 <= lemid[t] <= |names| && names[lemid[t] - 1] == t
  {
    if t in names {
      var i :| 0 <= i < |names| && names[i] == t;
      assert TermNumber(lemid, names, i);
    }
  }

  /** A term that comes up for the first time has a greater id than all terms before it. */
  lemma TermsInOrder(lemid: map<Term, nat>, names: seq<Term>, s: seq<Term>, p: nat, q: nat)
    requires Interned(lemid, names) && names == Firsts(s) && p < q < |s| && s[q] !in s[..q]
    ensures s[p] in lemid && s[q] in lemid && lemid[s[p]] < lemid[s[q]]
  {
    FirstsInOrder(s);
    NumberOfTerm(lemid, names, s[p]);
    NumberOfTerm(lemid, names, s[q]);
    FirstIsLater(names, s, p, q, lemid[s[p]] - 1, lemid[s[q]] - 1);
  }

  /** `try_emplace` with the next number. */
  method AddTerm(lemid: map<Term, nat>, t: Term, ghost names: seq<Term>)
    returns (m: map<Term, nat>, id: nat, ghost more: seq<Term>)
    requires Interned(lemid, names)
    ensures Interned(m, more) && more == if t in names then names else names + [t]
    ensures if t in lemid then m == lemid && id == lemid[t] else id == |lemid| + 1 && m == lemid[t := id]
    ensures 1 <= id <= |more| && more[id - 1] == t
  {
    NumberOfTerm(lemid, names, t);
    m, more := lemid, names;
    if t !in m {
      InternNew(m, more, t);
      m := m[t := |m| + 1];
      more := more + [t];
    }
    id := m[t];
  }

  /** The ids of the terms of one word. Known terms keep their numbers; new ones get the next
      numbers in the order in which they come. `seen` are the terms of the words before. */
  method AddTerms(lemid: map<Term, nat>, ts: seq<Term>, ghost names: seq<Term>, ghost seen: seq<Term>)
    returns (m: map<Term, nat>, ids: seq<nat>, ghost more: seq<Term>)
    requires Interned(lemid, names) && names == Firsts(seen)
    ensures Interned(m, more) && names <= more && Spells(more, ids, ts)
    ensures more == Firsts(seen + ts)
    ensures forall id | |names| < id <= |more| :: id in ids
    ensures |ids| == |ts|
    ensures forall j | 0 <= j < |ts| :: if ts[j] in lemid then ids[j] == lemid[ts[j]] else ids[j] > |lemid|
    ensures forall i, j | 0 <= i < j < |ts| && ts[j] !in lemid && ts[j] !in ts[..j] :: ids[i] < ids[j]
  {
    m, ids, more := lemid, [], names;
    assert seen + ts[..0] == seen;
    for k := 0 to |ts|
      invariant Interned(m, more) && names <= more && Spells(more, ids, ts[..k])
      invariant more == Firsts(seen + ts[..k])
    {
      ghost var before := more;
      NextFirst(seen, ts, k, more);
      var id;
      m, id, more := AddTerm(m, ts[k], more);
      SpellsOne(before, more, ids, ts[..k], id, ts[k]);
      ids := ids + [id];
    }
    assert ts[..|ts|] == ts;
    TermsDistinct(m, more);
    NewAmong(names, more, seen, ts);
    NumbersUsed(names, more, ts, ids);
    NumbersKept(lemid, names, more, ts, ids);
    InternedSeen(lemid, names, seen);
    FirstsAreLater(seen, ts);
    NumbersRise(more, seen, ts, ids);
  }

  lemma NumberOf(names: seq<Term>, ts: seq<Term>, ids: seq<nat>, i: nat, t: Term)
    requires Distinct(names) && Spells(names, ids, ts) && i < |names| && names[i] == t && t in ts
    ensures i + 1 in ids
  {
    var j :| 0 <= j < |ts| && ts[j] == t;
    assert names[ids[j] - 1] == ts[j];
    assert ids[j] == i + 1;
  }

  /** Every new number belongs to one of the terms. */
  lemma NumbersUsed(names: seq<Term>, more: seq<Term>, ts: seq<Term>, ids: seq<nat>)
    requires Distinct(more) && Spells(more, ids, ts) && forall i | |names| <= i < |more| :: more[i] in ts
    ensures forall id | |names| < id <= |more| :: id in ids
  {
    forall id | |names| < id <= |more| ensures id in ids {
      NumberOf(more, ts, ids, id - 1, more[id - 1]);
    }
  }

  lemma NumberKept(
    lemid: map<Term, nat>, names: seq<Term>, more: seq<Term>, t: Term, id: nat)
    requires Interned(lemid, names) && Distinct(more) && names <= more && 1 <= id <= |more| && more[id - 1] == t
    ensures if t in lemid then id == lemid[t] else id > |lemid|
  {
    NumberOfTerm(lemid, names, t);
    if id <= |names| {
      assert names[id - 1] == more[id - 1];
    }
  }

  /** Known terms keep their numbers, and new ones get higher numbers. */
  lemma NumbersKept(lemid: map<Term, nat>, names: seq<Term>, more: seq<Term>, ts: seq<Term>, ids: seq<nat>)
    requires Interned(lemid, names) && Distinct(more) && names <= more && Spells(more, ids, ts)
    ensures forall j | 0 <= j < |ts| :: if ts[j] in lemid then ids[j] == lemid[ts[j]] else ids[j] > |lemid|
  {
    forall j | 0 <= j < |ts| ensures if ts[j] in lemid then ids[j] == lemid[ts[j]] else ids[j] > |lemid| {
      NumberKept(lemid, names, more, ts[j], ids[j]);
    }
  }

  /** A new term has a higher number than all terms before it. */
  lemma NumbersRise(more: seq<Term>, seen: seq<Term>, ts: seq<Term>, ids: seq<nat>)
    requires LaterIn(more, seen, ts) && Spells(more, ids, ts)
    ensures forall i, j | 0 <= i < j < |ts| && ts[j] !in seen && ts[j] !in ts[..j] :: ids[i] < ids[j]
  {
    forall i, j | 0 <= i < j < |ts| && ts[j] !in seen && ts[j] !in ts[..j] ensures ids[i] < ids[j] {
      SpelledAt(more, ids, ts, i, ids[i], ts[i]);
      SpelledAt(more, ids, ts, j, ids[j], ts[j]);
      assert ComesLater(more, ts, i, j, ids[i] - 1, ids[j] - 1);
    }
  }

  lemma InternedSeen(lemid: map<Term, nat>, names: seq<Term>, seen: seq<Term>)
    requires Interned(lemid, names) && names == Firsts(seen)
    ensures forall t | t in seen :: t in lemid
  {
    forall t | t in seen ensures t in lemid {
      FirstsMembers(seen, t);
      NumberOfTerm(lemid, names, t);
    }
  }

  lemma SpelledAt(names: seq<Term>, ids: seq<nat>, ts: seq<Term>, k: nat, id: nat, t: Term)
    requires Spells(names, ids, ts) && k < |ts| && id == ids[k] && t == ts[k]
    ensures 1 <= id <= |names| && names[id - 1] == t
  {
  }

  /** `id` is a lemma of some word. */
  ghost predicate IsLemma(lems: LemTable, id: nat) {
    exists w: nat :: id in LemsOf(lems, w)
  }

  ghost predicate ValidIds(uni: seq<Unigram>) {
    && (forall u | u in uni :: 1 <= u.id <= |uni|)
    && (forall i, j | 0 <= i < j < |uni| :: uni[i].id != uni[j].id)
  }

  ghost predicate Assigned(uni: seq<Unigram>, n: nat, w: nat)
    requires n <= |uni|
  {
    exists k :: 0 <= k < n && uni[k].id == w
  }

  /** The words of `uni[..n]` have their lemmas, and the numbers used so far are those lemmas. */
  ghost predicate Lemmatized(
    uni: seq<Unigram>, n: nat, terms: Word -> seq<Term>, lems: LemTable, names: seq<Term>)
    requires n <= |uni|
  {
    && |lems| == |uni|
    && (forall k {:trigger uni[k]} | 0 <= k < n ::
          1 <= uni[k].id <= |uni| && Spells(names, lems[uni[k].id - 1], terms(uni[k].str)))
    && (forall v | 0 <= v < |lems| && lems[v] != [] :: Assigned(uni, n, v + 1))
    && (forall id: nat | 1 <= id <= |names| :: IsLemma(lems, id))
  }

  /** The numbers up to `|more|` are lemmas if those up to `|names|` were and the rest are `ids`. */
  lemma NewLemmas(lems: LemTable, after: LemTable, w: nat, ids: seq<nat>, names: seq<Term>, more: seq<Term>)
    requires 1 <= w <= |lems| && lems[w - 1] == [] && after == lems[w - 1 := ids]
    requires forall id: nat | 1 <= id <= |names| :: IsLemma(lems, id)
    requires forall id | |names| < id <= |more| :: id in ids
    ensures forall id: nat | 1 <= id <= |more| :: IsLemma(after, id)
  {
    forall id: nat | 1 <= id <= |more| ensures IsLemma(after, id) {
      if id <= |names| {
        assert IsLemma(lems, id);
        var v: nat :| id in LemsOf(lems, v);
        assert id in LemsOf(after, v);
      } else {
        assert id in LemsOf(after, w);
      }
    }
  }

  lemma SpellsLonger(names: seq<Term>, more: seq<Term>, ids: seq<nat>, ts: seq<Term>)
    requires Spells(names, ids, ts) && names <= more
    ensures Spells(more, ids, ts)
  {
    assert forall j | 0 <= j < |names| :: names[j] == more[j];
  }

  lemma NextWord(
    uni: seq<Unigram>, n: nat, terms: Word -> seq<Term>, lems: LemTable,
    names: seq<Term>, more: seq<Term>, ids: seq<nat>)
    requires ValidIds(uni) && n < |uni| && uni[n] in uni && Lemmatized(uni, n, terms, lems, names)
    requires names <= more && Spells(more, ids, terms(uni[n].str))
    requires forall id | |names| < id <= |more| :: id in ids
    ensures Lemmatized(uni, n + 1, terms, lems[uni[n].id - 1 := ids], more)
  {
    var after, w := lems[uni[n].id - 1 := ids], uni[n].id;
    assert lems[w - 1] == [] by {
      assert !Assigned(uni, n, w);
    }
    forall k | 0 <= k < n + 1 ensures 1 <= uni[k].id <= |uni| && Spells(more, after[uni[k].id - 1], terms(uni[k].str)) {
      if k < n {
        assert uni[k].id != uni[n].id;
        SpellsLonger(names, more, lems[uni[k].id - 1], terms(uni[k].str));
      }
    }
    forall v | 0 <= v < |after| && after[v] != [] ensures Assigned(uni, n + 1, v + 1) {
      if v + 1 != w {
        assert lems[v] != [];
        var k :| 0 <= k < n && uni[k].id == v + 1;
      } else {
        assert uni[n].id == v + 1;
      }
    }
    NewLemmas(lems, after, w, ids, names, more);
  }

  /** The terms by id, numbered as they come up, and with them the lemmas of every word. */
  ghost predicate IsLemmatization(
    uni: seq<Unigram>, terms: Word -> seq<Term>, lems: LemTable, lemid: map<Term, nat>)
  {
    var names := Firsts(TermsListed(uni, terms));
    Interned(lemid, names) && Lemmatized(uni, |uni|, terms, lems, names)
  }

  ghost function TermsOfEntry(terms: Word -> seq<Term>): Unigram -> seq<Term> {
    (u: Unigram) => terms(u.str)
  }

  /** The terms of all words, in the order of uni.bin. */
  ghost function TermsListed(uni: seq<Unigram>, terms: Word -> seq<Term>): seq<Term> {
    FlatMap(TermsOfEntry(terms), uni)
  }

  lemma TermsListedNext(uni: seq<Unigram>, terms: Word -> seq<Term>, n: nat)
    requires n < |uni|
    ensures TermsListed(uni[..n + 1], terms) == TermsListed(uni[..n], terms) + terms(uni[n].str)
  {
    FlatMapSnoc(TermsOfEntry(terms), uni[..n], uni[n]);
    assert uni[..n + 1] == uni[..n] + [uni[n]];
  }

  /** `lemmatize`, up to saving: `lems.resize`, then every word at the place of its id. */
  method LemmatizeWords(uni: seq<Unigram>, terms: Word -> seq<Term>) returns (lems: LemTable, lemid: map<Term, nat>)
    requires ValidIds(uni)
    ensures IsLemmatization(uni, terms, lems, lemid)
    ensures var s := TermsListed(uni, terms);
            && (forall p | 0 <= p < |s| :: s[p] in lemid)
            && forall p, q | 0 <= p < q < |s| && s[q] !in s[..q] :: lemid[s[p]] < lemid[s[q]]
  {
    lems, lemid := seq(|uni|, _ => []), map[];
    ghost var names: seq<Term> := [];
    for n := 0 to |uni|
      invariant Interned(lemid, names) && Lemmatized(uni, n, terms, lems, names)
      invariant names == Firsts(TermsListed(uni[..n], terms))
    {
      assert uni[n] in uni;
      TermsListedNext(uni, terms, n);
      ghost var names0 := names;
      var ids;
      lemid, ids, names := AddTerms(lemid, terms(uni[n].str), names, TermsListed(uni[..n], terms));
      NextWord(uni, n, terms, lems, names0, names, ids);
      lems := lems[uni[n].id - 1 := ids];
    }
    assert uni[..|uni|] == uni;
    ghost var s := TermsListed(uni, terms);
    FirstsInOrder(s);
    forall p: nat | p < |s| ensures s[p] in lemid {
      NumberOfTerm(lemid, names, s[p]);
    }
    forall p: nat, q: nat | p < q < |s| && s[q] !in s[..q] ensures lemid[s[p]] < lemid[s[q]] {
      TermsInOrder(lemid, names, s, p, q);
    }
  }

  /** The lemma part of `Lemmer::save`: lemid.bin. */
  method SaveLemIds(lemid: map<Term, nat>, ghost names: seq<Term>) returns (lemids: seq<LemId>)
    requires Interned(lemid, names)
    ensures |lemids| == |names|
    ensures forall m | m in lemids :: 1 <= m.id <= |names| && names[m.id - 1] == m.str
    ensures forall i, j | 0 <= i < j < |lemids| :: lemids[i].id != lemids[j].id
  {
    lemids := [];
    var keys := lemid.Keys;
    while keys != {}
      invariant keys <= lemid.Keys && |lemids| + |keys| == |lemid.Keys|
      invariant forall m | m in lemids :: 1 <= m.id <= |names| && names[m.id - 1] == m.str && m.str !in keys
      invariant forall i, j | 0 <= i < j < |lemids| :: lemids[i].id != lemids[j].id
      decreases |keys|
    {
      var t :| t in keys;
      ghost var i :| 0 <= i < |names| && names[i] == t;
      assert TermNumber(lemid, names, i);
      lemids := lemids + [LemId(t, lemid[t])];
      keys := keys - {t};
    }
    assert |lemid.Keys| == |lemid|;
  }

  // What the stages after it need ------------------------------------------------------------

  lemma WordHasLemmas(uni: seq<Unigram>, terms: Word -> seq<Term>, lems: LemTable, names: seq<Term>, k: nat)
    requires Lemmatized(uni, |uni|, terms, lems, names) && k < |uni| && terms(uni[k].str) != []
    ensures LemsOf(lems, uni[k].id) != []
  {
    assert Spells(names, lems[uni[k].id - 1], terms(uni[k].str));
  }

  /** If the lemmatizer knows every word, no entry of the table is empty. */
  lemma NoneEmpty(uni: seq<Unigram>, terms: Word -> seq<Term>, lems: LemTable, names: seq<Term>)
    requires ValidIds(uni) && Lemmatized(uni, |uni|, terms, lems, names)
    requires forall u | u in uni :: terms(u.str) != []
    ensures forall l | l in lems :: l != []
  {
    forall v | 0 <= v < |lems| ensures lems[v] != [] {
      var k := IndexOf(seq(|uni|, i requires 0 <= i < |uni| => uni[i].id), v + 1);
      assert uni[k] in uni;
      WordHasLemmas(uni, terms, lems, names, k);
    }
  }

  /** Distinct ids in 1..n, n of them: every number is taken. */
  lemma IndexOf(ids: seq<nat>, id: nat) returns (k: nat)
    requires (forall i | 0 <= i < |ids| :: 1 <= ids[i] <= |ids|) && 1 <= id <= |ids|
    requires forall i, j | 0 <= i < j < |ids| :: ids[i] != ids[j]
    ensures k < |ids| && ids[k] == id
  {
    if id !in ids {
      IdSetSize(ids);
      var s, all := set i | 0 <= i < |ids| :: ids[i], UpTo(|ids|);
      SubsetSize(s, all - {id});
      assert false;
    }
    k :| 0 <= k < |ids| && ids[k] == id;
  }

  lemma {:induction false} IdSetSize(ids: seq<nat>)
    requires forall i, j | 0 <= i < j < |ids| :: ids[i] != ids[j]
    ensures |set i | 0 <= i < |ids| :: ids[i]| == |ids|
  {
    if ids != [] {
      var n := |ids| - 1;
      var front := ids[..n];
      IdSetSize(front);
      var s, s' := set i | 0 <= i < |ids| :: ids[i], set i | 0 <= i < |front| :: front[i];
      assert s == s' + {ids[n]};
    }
  }

  ghost function UpTo(n: nat): (s: set<nat>)
    ensures |s| == n && forall x :: x in s <==> 1 <= x <= n
  {
    if n == 0 then {} else UpTo(n - 1) + {n}
  }

  lemma {:induction false} SubsetSize(s: set<nat>, t: set<nat>)
    requires s <= t
    ensures |s| <= |t|
  {
    if s != {} {
      var x :| x in s;
      SubsetSize(s - {x}, t - {x});
    }
  }
}
