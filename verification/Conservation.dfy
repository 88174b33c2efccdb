/** Sharing among homonyms loses no weight: over all readings, joint weights add up to the
    counts, for single words, pairs and triples alike. */
module Conservation {
  import opened Orders
  import opened Bags
  import opened Products
  import opened Lemmer
  import opened Weights

  ghost function CountIn(grams: seq<Gram>): Gram -> real {
    (g: Gram) => multiset(grams)[g] as real
  }

  ghost function Here(x: Gram): Gram -> real {
    (g: Gram) => if g == x then 1.0 else 0.0
  }

  lemma {:induction false} HereOnce(x: Gram, list: seq<Gram>)
    requires Distinct(list)
    ensures Sum(Here(x), list) == if x in list then 1.0 else 0.0
  {
    if list != [] {
      var n := |list| - 1;
      assert list == list[..n] + [list[n]];
      HereOnce(x, list[..n]);
      assert list[n] !in list[..n];
    }
  }

  lemma {:induction false} ZeroSum(f: Gram -> real, list: seq<Gram>)
    requires forall g | g in list :: f(g) == 0.0
    ensures Sum(f, list) == 0.0
  {
    if list != [] {
      assert list == list[..|list| - 1] + [list[|list| - 1]];
      ZeroSum(f, list[..|list| - 1]);
    }
  }

  /** Counting per reading counts everything. */
  lemma {:induction false} CountsAddUp(grams: seq<Gram>, list: seq<Gram>)
    requires Distinct(list) && forall g | g in grams :: g in list
    ensures Sum(CountIn(grams), list) == |grams| as real
  {
    if grams == [] {
      ZeroSum(CountIn(grams), list);
    } else {
      var n := |grams| - 1;
      var front, x := grams[..n], grams[n];
      assert grams == front + [x] && x in grams;
      CountsAddUp(front, list);
      HereOnce(x, list);
      assert forall g :: CountIn(grams)(g) == CountIn(front)(g) + Here(x)(g);
      SumAdd(CountIn(front), Here(x), CountIn(grams), list);
    }
  }

  ghost function ShareFor(share: Share, wids: Gram): Gram -> real {
    (g: Gram) => GramShare(share, g, wids)
  }

  lemma MulDistributes(a: real, b: real, t: real)
    ensures Mul(a + b, t) == Mul(a, t) + Mul(b, t)
    ensures Mul(0.0, t) == 0.0
  {
  }

  lemma {:induction false} SumScaled(f: Gram -> real, h: Gram -> real, t: real, list: seq<Gram>)
    requires forall g | g in list :: h(g) == Mul(f(g), t)
    ensures Sum(h, list) == Mul(Sum(f, list), t)
  {
    if list == [] {
      MulDistributes(0.0, 0.0, t);
    } else {
      var n := |list| - 1;
      assert list == list[..n] + [list[n]];
      SumScaled(f, h, t, list[..n]);
      MulDistributes(Sum(f, list[..n]), f(list[n]), t);
    }
  }

  lemma MulCancel(s: real, t: real)
    requires t > 0.0 && Mul(s, t) == t
    ensures s == 1.0
  {
    assert (s - 1.0) * t == 0.0;
  }

  /** The shares of one n-gram add up to one. */
  lemma SharesAddUp(lems: LemTable, wids: Gram, list: seq<Gram>)
    requires Covered(lems, wids) && Distinct(list) && forall g | g in Product(lems, wids) :: g in list
    ensures Sum(ShareFor(ShareOf(lems), wids), list) == 1.0
  {
    var readings, t := Product(lems, wids), Times(lems, wids) as real;
    forall g | g in list ensures CountIn(readings)(g) == Mul(ShareFor(ShareOf(lems), wids)(g), t) {
      ProductShare(lems, g, wids);
    }
    SumScaled(ShareFor(ShareOf(lems), wids), CountIn(readings), t, list);
    CountsAddUp(readings, list);
    ProductSize(lems, wids);
    TimesPositive(lems, wids);
    MulCancel(Sum(ShareFor(ShareOf(lems), wids), list), t);
  }

  ghost function JointFor(share: Share, table: seq<Count>): Gram -> real {
    (g: Gram) => Joint(share, g, table)
  }

  ghost function WeightOf(c: Count): real {
    c.weight as real
  }

  ghost function PartOf(share: Share, c: Count): Gram -> real {
    (g: Gram) => Mul(c.weight as real, GramShare(share, g, c.key))
  }

  lemma MulSwap(a: real, b: real)
    ensures Mul(a, b) == Mul(b, a)
    ensures Mul(1.0, a) == a
  {
  }

  /** `list` names every reading of the table once. */
  ghost predicate NamesReadings(lems: LemTable, table: seq<Count>, list: seq<Gram>) {
    && Distinct(list)
    && forall c | c in table :: Covered(lems, c.key) && forall g | g in Product(lems, c.key) :: g in list
  }

  /** Before any threshold, the joint weights of all readings add up to the sum of the counts. */
  lemma {:induction false} JointWeightsAddUp(lems: LemTable, table: seq<Count>, list: seq<Gram>)
    requires NamesReadings(lems, table, list)
    ensures Sum(JointFor(ShareOf(lems), table), list) == Sum(WeightOf, table)
  {
    var share := ShareOf(lems);
    if table == [] {
      ZeroSum(JointFor(share, table), list);
    } else {
      var n := |table| - 1;
      var front, c := table[..n], table[n];
      assert table == front + [c] && c in table;
      JointWeightsAddUp(lems, front, list);
      forall g ensures JointFor(share, table)(g) == JointFor(share, front)(g) + PartOf(share, c)(g) {
        SumSnoc(Weighted(ShareIn(share, g)), front, c);
      }
      SumAdd(JointFor(share, front), PartOf(share, c), JointFor(share, table), list);
      SharesAddUp(lems, c.key, list);
      forall g | g in list ensures PartOf(share, c)(g) == Mul(ShareFor(share, c.key)(g), c.weight as real) {
        MulSwap(c.weight as real, GramShare(share, g, c.key));
      }
      SumScaled(ShareFor(share, c.key), PartOf(share, c), c.weight as real, list);
      MulSwap(c.weight as real, 1.0);
    }
  }

  lemma {:induction false} CountsOfGrams(table: seq<Count>, grams: seq<Gram>)
    requires Exact(table, grams)
    ensures Sum(WeightOf, table) == |grams| as real
  {
    var one := (g: Gram) => 1.0;
    forall c | c in table ensures WeightOf(c) == Weighted(one)(c) {
      MulSwap(c.weight as real, 1.0);
    }
    SumSame(WeightOf, Weighted(one), table);
    TableSum(one, table, grams);
    SumOfOnes(one, grams);
  }

  lemma {:induction false} SumOfOnes(one: Gram -> real, grams: seq<Gram>)
    requires forall g :: one(g) == 1.0
    ensures Sum(one, grams) == |grams| as real
  {
    if grams != [] {
      SumOfOnes(one, grams[..|grams| - 1]);
    }
  }

  /** So the weights of all lemmas add up to the number of words of the corpus, those of all
      pairs to the number of adjacent words, those of all triples to the number of admitted ones. */
  lemma WindowsAddUp(lems: LemTable, table: seq<Count>, grams: seq<Gram>, list: seq<Gram>)
    requires NamesReadings(lems, table, list) && Exact(table, grams)
    ensures Sum((g: Gram) => JointIn(ShareOf(lems), g, grams), list) == |grams| as real
  {
    JointWeightsAddUp(lems, table, list);
    CountsOfGrams(table, grams);
    forall g | g in list ensures JointFor(ShareOf(lems), table)(g) == JointIn(ShareOf(lems), g, grams) {
      JointOfTable(ShareOf(lems), g, table, grams);
    }
    SumSame(JointFor(ShareOf(lems), table), (g: Gram) => JointIn(ShareOf(lems), g, grams), list);
  }
}
