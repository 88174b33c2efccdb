/** The lemma table of src/colloc.cpp, lemma products of word n-grams, and the share of an
    n-gram that goes to each of its lemma readings. */
module Lemmer {
  import opened Orders
  import opened Products

  type LemTable = seq<seq<nat>>

  // Lemmer::save and load_lems ----------------------------------------------------

  /** What `save` writes: entries without lemmas are dropped. */
  ghost function Saved(lems: LemTable): LemTable {
    if lems == [] then []
    else
      var last := lems[|lems| - 1];
      Saved(lems[..|lems| - 1]) + if last == [] then [] else [last]
  }

  /** `from` gives the place in the table of every entry of the file: these are exactly the
      entries with lemmas, in their order. */
  method SaveLems(lems: LemTable) returns (file: LemTable, ghost from: seq<nat>)
    ensures file == Saved(lems)
    ensures |from| == |file| && forall i | 0 <= i < |file| :: from[i] < |lems| && file[i] == lems[from[i]] != []
    ensures forall i, j | 0 <= i < j < |from| :: from[i] < from[j]
    ensures forall w: nat | w < |lems| && lems[w] != [] :: w in from
  {
    file, from := [], [];
    for i := 0 to |lems|
      invariant file == Saved(lems[..i])
      invariant |from| == |file|
      invariant forall k | 0 <= k < |file| :: from[k] < i && file[k] == lems[from[k]] != []
      invariant forall k, j | 0 <= k < j < |from| :: from[k] < from[j]
      invariant forall w: nat | w < i && lems[w] != [] :: w in from
    {
      assert lems[..i + 1][..i] == lems[..i];
      if lems[i] != [] {
        file, from := file + [lems[i]], from + [i];
        assert from[|from| - 1] == i;
      }
    }
    assert lems[..|lems|] == lems;
  }

  method LoadLems(file: LemTable) returns (lems: LemTable)
    ensures lems == file
  {
    lems := [];
    for i := 0 to |file|
      invariant lems == file[..i]
    {
      lems := lems + [file[i]];
    }
  }

  /** The table survives exactly if every word has a lemma; otherwise words get the lemmas of
      later words. */
  lemma {:induction false} SavedIffNoneEmpty(lems: LemTable)
    ensures |Saved(lems)| <= |lems|
    ensures Saved(lems) == lems <==> forall l | l in lems :: l != []
  {
    if lems != [] {
      var n := |lems| - 1;
      SavedIffNoneEmpty(lems[..n]);
      assert lems == lems[..n] + [lems[n]];
      if lems[n] == [] {
        assert |Saved(lems)| < |lems|;
        assert lems[n] in lems;
      } else {
        var front := Saved(lems[..n]);
        assert (front + [lems[n]])[..|front|] == front;
        assert Saved(lems) == lems <==> front == lems[..n];
        assert forall l :: l in lems <==> l in lems[..n] || l == lems[n];
      }
    }
  }

  // Lemma products ------------------------------------------------------------------

  function LemsOf(lems: LemTable, wid: nat): seq<nat> {
    if 1 <= wid <= |lems| then lems[wid - 1] else []
  }

  /** Every word of the n-gram is in the table, with at least one lemma. */
  predicate Covered(lems: LemTable, wids: Gram) {
    forall i | 0 <= i < |wids| :: LemsOf(lems, wids[i]) != []
  }

  function Prefixed(lid: nat, rest: seq<Gram>): seq<Gram> {
    if rest == [] then [] else [[lid] + rest[0]] + Prefixed(lid, rest[1..])
  }

  function Cross(lids: seq<nat>, rest: seq<Gram>): seq<Gram> {
    if lids == [] then [] else Prefixed(lids[0], rest) + Cross(lids[1..], rest)
  }

  /** The nested loops over the lemmas of each word. */
  function Product(lems: LemTable, wids: Gram): seq<Gram> {
    if wids == [] then [[]] else Cross(LemsOf(lems, wids[0]), Product(lems, wids[1..]))
  }

  /** `times`: the product of the numbers of lemmas. */
  function Times(lems: LemTable, wids: Gram): nat {
    if wids == [] then 1 else MulNat(|LemsOf(lems, wids[0])|, Times(lems, wids[1..]))
  }

  /** How much of a word (second) one of its lemmas (first) gets. */
  type Share = (nat, nat) -> real

  ghost predicate Fair(share: Share) {
    forall lid, wid :: 0.0 <= share(lid, wid) <= 1.0
  }

  /** The part of the n-gram `wids` that its reading `lids` gets. */
  ghost function GramShare(share: Share, lids: Gram, wids: Gram): real {
    if |lids| != |wids| then 0.0
    else if lids == [] then 1.0
    else Mul(share(lids[0], wids[0]), GramShare(share, lids[1..], wids[1..]))
  }

  /** Homonyms share a word equally. */
  ghost function EqualShare(lems: LemTable, lid: nat, wid: nat): real {
    var ls := LemsOf(lems, wid);
    if ls == [] then 0.0 else Fraction(multiset(ls)[lid], |ls|)
  }

  ghost function ShareOf(lems: LemTable): Share {
    (lid: nat, wid: nat) => EqualShare(lems, lid, wid)
  }

  lemma {:induction false} PrefixedCount(lid: nat, rest: seq<Gram>, g: Gram)
    ensures |Prefixed(lid, rest)| == |rest|
    ensures multiset(Prefixed(lid, rest))[g] == if g != [] && g[0] == lid then multiset(rest)[g[1..]] else 0
  {
    if rest != [] {
      PrefixedCount(lid, rest[1..], g);
      assert rest == [rest[0]] + rest[1..];
      var head := [lid] + rest[0];
      assert head[1..] == rest[0];
      assert g != [] ==> g == [g[0]] + g[1..];
    }
  }

  lemma {:induction false} CrossSize(lids: seq<nat>, rest: seq<Gram>)
    ensures |Cross(lids, rest)| == MulNat(|lids|, |rest|)
  {
    if lids != [] {
      PrefixedCount(lids[0], rest, []);
      CrossSize(lids[1..], rest);
      MulSuccessor(|lids[1..]|, |rest|);
    }
  }

  lemma FirstCounts<T>(s: seq<T>, x: T)
    requires s != []
    ensures multiset(s)[x] == multiset(s[1..])[x] + if x == s[0] then 1 else 0
  {
    assert s == [s[0]] + s[1..];
  }

  lemma CrossStep(ids: seq<nat>, rest: seq<Gram>, g: Gram, k: nat, r: nat, tail: nat)
    requires ids != [] && g != [] && tail == MulNat(k, r) && r == multiset(rest)[g[1..]]
    requires k == multiset(ids[1..])[g[0]]
    ensures multiset(Prefixed(ids[0], rest))[g] + tail == MulNat(multiset(ids)[g[0]], r)
  {
    PrefixedCount(ids[0], rest, g);
    FirstCounts(ids, g[0]);
    MulSuccessor(k, r);
  }

  lemma {:induction false} CrossCount(lids: seq<nat>, rest: seq<Gram>, g: Gram)
    ensures multiset(Cross(lids, rest))[g] ==
            if g != [] then MulNat(multiset(lids)[g[0]], multiset(rest)[g[1..]]) else 0
  {
    if lids != [] {
      CrossCount(lids[1..], rest, g);
      var tail: nat := multiset(Cross(lids[1..], rest))[g];
      assert multiset(Cross(lids, rest))[g] == multiset(Prefixed(lids[0], rest))[g] + tail;
      if g != [] {
        CrossStep(lids, rest, g, multiset(lids[1..])[g[0]], multiset(rest)[g[1..]], tail);
      } else {
        PrefixedCount(lids[0], rest, g);
      }
    } else if g != [] {
      assert multiset(lids)[g[0]] == 0;
      MulZero(multiset(rest)[g[1..]]);
    }
  }

  lemma {:induction false} ProductSize(lems: LemTable, wids: Gram)
    ensures |Product(lems, wids)| == Times(lems, wids)
  {
    if wids != [] {
      ProductSize(lems, wids[1..]);
      CrossSize(LemsOf(lems, wids[0]), Product(lems, wids[1..]));
    }
  }

  lemma {:induction false} TimesPositive(lems: LemTable, wids: Gram)
    requires Covered(lems, wids)
    ensures Times(lems, wids) > 0
  {
    if wids != [] {
      assert LemsOf(lems, wids[0]) != [];
      assert forall i | 0 <= i < |wids| - 1 :: wids[1..][i] == wids[i + 1];
      TimesPositive(lems, wids[1..]);
    }
  }

  lemma {:induction false} CountBound(ls: seq<nat>, lid: nat)
    ensures multiset(ls)[lid] <= |ls|
  {
    if ls != [] {
      assert ls == ls[..|ls| - 1] + [ls[|ls| - 1]];
      CountBound(ls[..|ls| - 1], lid);
    }
  }

  lemma EqualShareTimes(lems: LemTable, lid: nat, wid: nat)
    ensures multiset(LemsOf(lems, wid))[lid] as real == Mul(EqualShare(lems, lid, wid), |LemsOf(lems, wid)| as real)
    ensures lid in LemsOf(lems, wid) <==> EqualShare(lems, lid, wid) > 0.0
    ensures 0.0 <= EqualShare(lems, lid, wid) <= 1.0
  {
    var ls := LemsOf(lems, wid);
    CountBound(ls, lid);
    assert lid in ls <==> lid in multiset(ls);
    if ls != [] {
      var bag: multiset<nat> := multiset(ls);
      FractionRange(EqualShare(lems, lid, wid), bag[lid], |ls|);
    } else {
      assert Mul(0.0, 0.0) == 0.0;
    }
  }

  lemma ShareIsFair(lems: LemTable)
    ensures Fair(ShareOf(lems))
  {
    forall lid, wid ensures 0.0 <= ShareOf(lems)(lid, wid) <= 1.0 {
      EqualShareTimes(lems, lid, wid);
    }
  }

  /** A reading comes up in the product as often as its share says. */
  lemma {:induction false} ProductShare(lems: LemTable, lids: Gram, wids: Gram)
    ensures multiset(Product(lems, wids))[lids] as real ==
            Mul(GramShare(ShareOf(lems), lids, wids), Times(lems, wids) as real)
  {
    if wids == [] {
      assert Mul(0.0, 1.0) == 0.0;
    } else if lids == [] {
      CrossCount(LemsOf(lems, wids[0]), Product(lems, wids[1..]), lids);
      assert Mul(0.0, Times(lems, wids) as real) == 0.0;
    } else {
      var ls, rest := LemsOf(lems, wids[0]), Product(lems, wids[1..]);
      var p: nat, q: nat := multiset(ls)[lids[0]], multiset(rest)[lids[1..]];
      var e, s := EqualShare(lems, lids[0], wids[0]), GramShare(ShareOf(lems), lids[1..], wids[1..]);
      var n: nat, t: nat := |ls|, Times(lems, wids[1..]);
      assert q as real == Mul(s, t as real) by {
        ProductShare(lems, lids[1..], wids[1..]);
      }
      assert p as real == Mul(e, n as real) by {
        EqualShareTimes(lems, lids[0], wids[0]);
      }
      MulFractions(p, q, e, n, s, t);
      CrossCount(ls, rest, lids);
      if |lids| != |wids| {
        assert s == 0.0 && Mul(e, 0.0) == 0.0;
      }
    }
  }

  // Bounds ----------------------------------------------------------------------------

  lemma {:induction false} GramShareBounds(share: Share, lids: Gram, wids: Gram)
    requires Fair(share)
    ensures 0.0 <= GramShare(share, lids, wids) <= 1.0
  {
    if |lids| == |wids| && lids != [] {
      GramShareBounds(share, lids[1..], wids[1..]);
      MulAtMost(share(lids[0], wids[0]), GramShare(share, lids[1..], wids[1..]));
    }
  }

  /** Forgetting the last word or the first can only increase the share. */
  lemma {:induction false} ShareOfPrefix(share: Share, lids: Gram, wids: Gram)
    requires Fair(share) && |lids| == |wids| > 0
    ensures GramShare(share, lids, wids) <= GramShare(share, lids[..|lids| - 1], wids[..|wids| - 1])
  {
    var n := |lids| - 1;
    if n > 0 {
      ShareOfPrefix(share, lids[1..], wids[1..]);
      assert lids[..n][1..] == lids[1..][..n - 1] && wids[..n][1..] == wids[1..][..n - 1];
      MulMonotone(share(lids[0], wids[0]), GramShare(share, lids[1..], wids[1..]),
                  GramShare(share, lids[..n][1..], wids[..n][1..]));
    } else {
      assert lids[..n] == [] && wids[..n] == [];
      GramShareBounds(share, lids, wids);
    }
  }

  lemma ShareOfSuffix(share: Share, lids: Gram, wids: Gram)
    requires Fair(share) && |lids| == |wids| > 0
    ensures GramShare(share, lids, wids) <= GramShare(share, lids[1..], wids[1..])
  {
    var first, rest := share(lids[0], wids[0]), GramShare(share, lids[1..], wids[1..]);
    GramShareBounds(share, lids[1..], wids[1..]);
    assert GramShare(share, lids, wids) == Mul(first, rest);
    MulAtMost(first, rest);
  }

  lemma TailPart(g: Gram, a: nat, b: nat)
    requires 0 < a <= b <= |g|
    ensures g[1..][a - 1..b - 1] == g[a..b]
  {
    forall k | 0 <= k < b - a ensures g[1..][a - 1..b - 1][k] == g[a..b][k] {
      assert g[1..][a - 1 + k] == g[a + k];
    }
  }

  /** The share of a reading is at most the share of any part of it. */
  lemma {:induction false} ShareOfPart(share: Share, lids: Gram, wids: Gram, a: nat, b: nat)
    requires Fair(share) && |lids| == |wids| && a <= b <= |lids|
    ensures GramShare(share, lids, wids) <= GramShare(share, lids[a..b], wids[a..b])
    decreases |lids|
  {
    if a > 0 {
      ShareOfSuffix(share, lids, wids);
      ShareOfPart(share, lids[1..], wids[1..], a - 1, b - 1);
      TailPart(lids, a, b);
      TailPart(wids, a, b);
    } else if b < |lids| {
      var n := |lids| - 1;
      ShareOfPrefix(share, lids, wids);
      ShareOfPart(share, lids[..n], wids[..n], a, b);
      assert lids[..n][a..b] == lids[a..b] && wids[..n][a..b] == wids[a..b];
    } else {
      assert lids[a..b] == lids && wids[a..b] == wids;
    }
  }

  // Carrying a reading --------------------------------------------------------------------

  /** `lids` is one of the readings of `wids`. */
  predicate Carries(lems: LemTable, lids: Gram, wids: Gram) {
    |lids| == |wids| && forall i | 0 <= i < |lids| :: lids[i] in LemsOf(lems, wids[i])
  }

  lemma CarriesTail(lems: LemTable, lids: Gram, wids: Gram)
    requires |lids| == |wids| > 0
    ensures Carries(lems, lids, wids) <==> lids[0] in LemsOf(lems, wids[0]) && Carries(lems, lids[1..], wids[1..])
  {
    assert forall i | 0 < i < |lids| :: lids[i] == lids[1..][i - 1] && wids[i] == wids[1..][i - 1];
    assert forall i | 0 <= i < |lids| - 1 :: lids[1..][i] == lids[i + 1] && wids[1..][i] == wids[i + 1];
  }

  /** A reading gets something exactly if all its lemmas are lemmas of the words. */
  lemma {:induction false} CarriesIffShare(lems: LemTable, lids: Gram, wids: Gram)
    ensures Carries(lems, lids, wids) <==> GramShare(ShareOf(lems), lids, wids) > 0.0
  {
    if |lids| == |wids| && lids != [] {
      CarriesIffShare(lems, lids[1..], wids[1..]);
      ShareIsFair(lems);
      GramShareBounds(ShareOf(lems), lids[1..], wids[1..]);
      EqualShareTimes(lems, lids[0], wids[0]);
      CarriesTail(lems, lids, wids);
      MulPositive(ShareOf(lems)(lids[0], wids[0]), GramShare(ShareOf(lems), lids[1..], wids[1..]));
    }
  }
}
