/** Joint weights of lemma n-grams: over a table of counts, over the windows of the corpus,
    and the bounds between them. */
module Weights {
  import opened Orders
  import opened Bags
  import opened Products
  import opened Corpus
  import opened Tables
  import opened Lemmer

  /** A table entry stands for `weight` windows. */
  ghost function Weighted(f: Gram -> real): Count -> real {
    (c: Count) => Mul(c.weight as real, f(c.key))
  }

  ghost function ShareIn(share: Share, lids: Gram): Gram -> real {
    (wids: Gram) => GramShare(share, lids, wids)
  }

  /** `Wij`, `Wijk` or, for one lemma, `Wi`: taken over a list of word n-grams ... */
  ghost function JointIn(share: Share, lids: Gram, grams: seq<Gram>): real {
    Sum(ShareIn(share, lids), grams)
  }

  /** ... and over a table of their counts. */
  ghost function Joint(share: Share, lids: Gram, table: seq<Count>): real {
    Sum(Weighted(ShareIn(share, lids)), table)
  }

  // Tables and what they count ---------------------------------------------------------

  lemma {:induction false} CountAtMost(grams: seq<Gram>, g: Gram)
    ensures multiset(grams)[g] <= |grams|
  {
    if grams != [] {
      assert grams == grams[..|grams| - 1] + [grams[|grams| - 1]];
      CountAtMost(grams[..|grams| - 1], g);
    }
  }

  ghost function Without(k: Gram, grams: seq<Gram>): seq<Gram> {
    if grams == [] then []
    else
      var g := grams[|grams| - 1];
      Without(k, grams[..|grams| - 1]) + if g == k then [] else [g]
  }

  lemma {:induction false} WithoutCount(k: Gram, grams: seq<Gram>, g: Gram)
    ensures multiset(Without(k, grams))[g] == if g == k then 0 else multiset(grams)[g]
  {
    if grams != [] {
      assert grams == grams[..|grams| - 1] + [grams[|grams| - 1]];
      WithoutCount(k, grams[..|grams| - 1], g);
    }
  }

  lemma MulCountUp(n: nat, x: real)
    ensures Mul((n + 1) as real, x) == Mul(n as real, x) + x
    ensures Mul(0 as real, x) == 0.0
  {
  }

  lemma {:induction false} WithoutSum(f: Gram -> real, k: Gram, grams: seq<Gram>)
    ensures Sum(f, grams) == Sum(f, Without(k, grams)) + Mul(multiset(grams)[k] as real, f(k))
  {
    if grams == [] {
      MulCountUp(0, f(k));
    } else {
      var front, g := grams[..|grams| - 1], grams[|grams| - 1];
      var m: nat := multiset(front)[k];
      WithoutSum(f, k, front);
      assert multiset(grams)[k] == if g == k then m + 1 else m by {
        assert grams == front + [g];
      }
      if g == k {
        MulCountUp(m, f(k));
        assert Without(k, grams) == Without(k, front);
      } else {
        SumSnoc(f, Without(k, front), g);
      }
    }
  }

  ghost predicate Listed(t: seq<Count>, grams: seq<Gram>, k: Gram) {
    HasKey(t, k) <==> k in multiset(grams)
  }

  /** The table has the keys and the multiplicities of `grams`. */
  ghost predicate Exact(t: seq<Count>, grams: seq<Gram>) {
    && DistinctKeys(t)
    && (forall k :: Listed(t, grams, k))
    && (forall c | c in t :: c.weight == multiset(grams)[c.key])
  }

  /** With fewer than 2^32 windows no counter wraps. */
  lemma SmallIsExact(t: seq<Count>, grams: seq<Gram>)
    requires Tabulates(t, multiset(grams)) && |grams| < 0x1_0000_0000
    ensures Exact(t, grams)
  {
    forall c | c in t ensures c.weight == multiset(grams)[c.key] {
      CountAtMost(grams, c.key);
    }
  }

  lemma ExactFrontKey(t: seq<Count>, grams: seq<Gram>, g: Gram)
    requires DistinctKeys(t) && t != [] && (HasKey(t, g) <==> g in multiset(grams))
    ensures HasKey(t[..|t| - 1], g) <==> g in multiset(Without(t[|t| - 1].key, grams))
  {
    WithoutCount(t[|t| - 1].key, grams, g);
    FrontKeys(t, g);
  }

  lemma ExactFrontWeight(t: seq<Count>, grams: seq<Gram>, i: nat)
    requires DistinctKeys(t) && i < |t| - 1 && t[i].weight == multiset(grams)[t[i].key]
    ensures t[i].weight == multiset(Without(t[|t| - 1].key, grams))[t[i].key]
  {
    WithoutCount(t[|t| - 1].key, grams, t[i].key);
  }

  lemma ExactFront(t: seq<Count>, grams: seq<Gram>)
    requires Exact(t, grams) && t != []
    ensures Exact(t[..|t| - 1], Without(t[|t| - 1].key, grams))
  {
    var n := |t| - 1;
    var front, k := t[..n], t[n].key;
    forall g ensures Listed(front, Without(k, grams), g) {
      assert Listed(t, grams, g);
      ExactFrontKey(t, grams, g);
    }
    forall c | c in front ensures c.weight == multiset(Without(k, grams))[c.key] {
      var i :| 0 <= i < n && front[i] == c;
      assert t[i] in t;
      ExactFrontWeight(t, grams, i);
    }
  }

  /** Summing over a table of counts is summing over what was counted. */
  lemma {:induction false} TableSum(f: Gram -> real, t: seq<Count>, grams: seq<Gram>)
    requires Exact(t, grams)
    ensures Sum(Weighted(f), t) == Sum(f, grams)
    decreases |t|
  {
    if t == [] {
      forall g ensures g !in multiset(grams) {
        assert Listed(t, grams, g) && !HasKey(t, g);
      }
      assert |grams| == |multiset(grams)| == 0;
    } else {
      var c := t[|t| - 1];
      assert c in t;
      ExactFront(t, grams);
      TableSum(f, t[..|t| - 1], Without(c.key, grams));
      WithoutSum(f, c.key, grams);
    }
  }

  lemma JointOfTable(share: Share, lids: Gram, t: seq<Count>, grams: seq<Gram>)
    requires Exact(t, grams)
    ensures Joint(share, lids, t) == JointIn(share, lids, grams)
  {
    TableSum(ShareIn(share, lids), t, grams);
  }

  // Bounds -------------------------------------------------------------------------------

  lemma {:induction false} JointNonNegative(share: Share, lids: Gram, grams: seq<Gram>)
    requires Fair(share)
    ensures JointIn(share, lids, grams) >= 0.0
  {
    if grams != [] {
      JointNonNegative(share, lids, grams[..|grams| - 1]);
      GramShareBounds(share, lids, grams[|grams| - 1]);
    }
  }

  lemma NextWindow(share: Share, lids: Gram, n: nat, w: Phrase, i: nat)
    requires 0 < i && i + n <= |w| + 1
    ensures JointIn(share, lids, WindowsTo(n, w, i)) ==
            JointIn(share, lids, WindowsTo(n, w, i - 1)) + GramShare(share, lids, Window(n, w, i - 1))
  {
    SumSnoc(ShareIn(share, lids), WindowsTo(n, w, i - 1), Window(n, w, i - 1));
  }

  /** A word starts or ends at most one window, so the windows of `n` words up to `i` weigh no
      more than the windows of their parts. */
  lemma {:induction false} WindowsOfPart(share: Share, lids: Gram, w: Phrase, a: nat, b: nat, i: nat, k: nat)
    requires Fair(share) && a < b <= |lids| && i + |lids| <= |w| + 1 && k == a + i
    ensures JointIn(share, lids, WindowsTo(|lids|, w, i)) <= JointIn(share, lids[a..b], WindowsTo(b - a, w, k))
  {
    var n, m := |lids|, b - a;
    if i == 0 {
      JointNonNegative(share, lids[a..b], WindowsTo(m, w, k));
    } else {
      var p, q: nat := i - 1, k - 1;
      WindowsOfPart(share, lids, w, a, b, p, q);
      ShareOfPart(share, lids, Window(n, w, p), a, b);
      WindowPart(n, w, p, a, b);
      NextWindow(share, lids, n, w, i);
      NextWindow(share, lids[a..b], m, w, k);
    }
  }

  lemma {:induction false} MoreWindows(share: Share, lids: Gram, n: nat, w: Phrase, i: nat, j: nat)
    requires Fair(share) && i <= j && j + n <= |w| + 1
    ensures JointIn(share, lids, WindowsTo(n, w, i)) <= JointIn(share, lids, WindowsTo(n, w, j))
    decreases j
  {
    if i < j {
      MoreWindows(share, lids, n, w, i, j - 1);
      GramShareBounds(share, lids, Window(n, w, j - 1));
      SumSnoc(ShareIn(share, lids), WindowsTo(n, w, j - 1), Window(n, w, j - 1));
    }
  }

  lemma PhraseAtMostPart(share: Share, lids: Gram, w: Phrase, a: nat, b: nat)
    requires Fair(share) && a < b <= |lids|
    ensures JointIn(share, lids, Windows(|lids|, w)) <= JointIn(share, lids[a..b], Windows(b - a, w))
  {
    var n, m, part := |lids|, b - a, lids[a..b];
    if |w| >= n {
      var i: nat, j: nat := |w| - n + 1, |w| - m + 1;
      var k: nat := a + i;
      assert JointIn(share, lids, WindowsTo(n, w, i)) <= JointIn(share, part, WindowsTo(m, w, k)) by {
        WindowsOfPart(share, lids, w, a, b, i, k);
      }
      assert JointIn(share, part, WindowsTo(m, w, k)) <= JointIn(share, part, WindowsTo(m, w, j)) by {
        MoreWindows(share, part, m, w, k, j);
      }
    } else {
      JointNonNegative(share, lids[a..b], Windows(m, w));
    }
  }

  lemma JointNextPhrase(share: Share, lids: Gram, n: nat, corpus: seq<Phrase>)
    requires corpus != []
    ensures var front, w := corpus[..|corpus| - 1], corpus[|corpus| - 1];
            JointIn(share, lids, AllWindows(n, corpus)) ==
            JointIn(share, lids, AllWindows(n, front)) + JointIn(share, lids, Windows(n, w))
  {
    SumConcat(ShareIn(share, lids), AllWindows(n, corpus[..|corpus| - 1]), Windows(n, corpus[|corpus| - 1]));
  }

  /** The weight of a reading is at most the weight of any part of it: pairs weigh no more than
      their lemmas, triples no more than their pairs and their lemmas. */
  lemma {:induction false} JointAtMostPart(share: Share, lids: Gram, corpus: seq<Phrase>, a: nat, b: nat)
    requires Fair(share) && a < b <= |lids|
    ensures JointIn(share, lids, AllWindows(|lids|, corpus)) <= JointIn(share, lids[a..b], AllWindows(b - a, corpus))
  {
    if corpus != [] {
      var last := |corpus| - 1;
      JointAtMostPart(share, lids, corpus[..last], a, b);
      PhraseAtMostPart(share, lids, corpus[last], a, b);
      JointNextPhrase(share, lids, |lids|, corpus);
      JointNextPhrase(share, lids[a..b], b - a, corpus);
    }
  }
}
