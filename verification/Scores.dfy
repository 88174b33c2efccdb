/** The scores that `write_one` of `group_lem2` and of `group_lem3` compute. Arithmetic is exact. */
module Scores {
  import opened Orders
  import opened Products
  import opened Grouping

  function MaxZero(x: real): (r: real)
    ensures r >= 0.0 && (r > 0.0 <==> x > 0.0) && (x >= 0.0 ==> r == x)
  {
    if x > 0.0 then x else 0.0
  }

  predicate Known(lidW: map<nat, real>, lids: Gram) {
    forall i | 0 <= i < |lids| :: lids[i] in lidW && lidW[lids[i]] != 0.0
  }

  /** The quotient of `group_lem2`: `excess` is the weight over the threshold. */
  function PairQuotient(l: real, excess: real, wi: real, wj: real): real
    requires wi != 0.0 && wj != 0.0
  {
    var temp := l * excess;
    temp / wi / wj
  }

  /** The quotient of `group_lem3`. */
  function TripleQuotient(l: real, excess: real, wi: real, wj: real, wk: real): real
    requires wi != 0.0 && wj != 0.0 && wk != 0.0
  {
    var temp := l * excess;
    var temp' := temp / wi / wj;
    l * temp' / wk
  }

  /** `write_one` of `group_lem2`. */
  function Score2(lidW: map<nat, real>, threshold: real): Score {
    (lids: Gram, weight: real) =>
      if |lids| != 2 || !Known(lidW, lids) then 0.0
      else
        MaxZero(PairQuotient(|lidW| as real, weight - threshold, lidW[lids[0]], lidW[lids[1]]))
  }

  /** `write_one` of `group_lem3`. */
  function Score3(lidW: map<nat, real>, threshold: real): Score {
    (lids: Gram, weight: real) =>
      if |lids| != 3 || !Known(lidW, lids) then 0.0
      else
        MaxZero(TripleQuotient(|lidW| as real, weight - threshold,
                               lidW[lids[0]], lidW[lids[1]], lidW[lids[2]]))
  }

  /** Every lemma of the reading occurs, so the unchecked look-ups find it. */
  ghost predicate Occurring(lidW: map<nat, real>, lids: Gram) {
    forall i | 0 <= i < |lids| :: lids[i] in lidW && lidW[lids[i]] > 0.0
  }

  lemma SomeLemmas(lidW: map<nat, real>, lid: nat)
    requires lid in lidW
    ensures |lidW| as real >= 1.0
  {
    assert lid in lidW.Keys;
    assert |lidW.Keys| > 0;
  }

  lemma ScaledPositive(l: real, x: real)
    requires l >= 1.0
    ensures l * x > 0.0 <==> x > 0.0
  {
    if x > 0.0 {
      assert l * x >= x by {
        assert (l - 1.0) * x >= 0.0;
      }
    } else {
      assert l * -x >= 0.0;
    }
  }

  /** `L (Wij - t) / (Wi Wj)`: the documented formula times the number of lemmas. */
  function PairFormula(l: real, excess: real, wi: real, wj: real): real
    requires wi > 0.0 && wj > 0.0
  {
    assert wi * wj > 0.0;
    l * excess / (wi * wj)
  }

  /** Its extension to triples, `L^2 (Wijk - t) / (Wi Wj Wk)`. */
  function TripleFormula(l: real, excess: real, wi: real, wj: real, wk: real): real
    requires wi > 0.0 && wj > 0.0 && wk > 0.0
  {
    assert wi * wj > 0.0 && wi * wj * wk > 0.0;
    l * (l * excess) / (wi * wj * wk)
  }

  lemma PairValue(l: real, x: real, wi: real, wj: real)
    requires l >= 1.0 && wi > 0.0 && wj > 0.0
    ensures PairQuotient(l, x, wi, wj) == PairFormula(l, x, wi, wj)
    ensures PairQuotient(l, x, wi, wj) > 0.0 <==> x > 0.0
  {
    ScaledPositive(l, x);
    DivPositive(l * x, wi);
    DivPositive(l * x / wi, wj);
    DivDiv(l * x, wi, wj);
  }

  lemma TripleValue(l: real, x: real, wi: real, wj: real, wk: real)
    requires l >= 1.0 && wi > 0.0 && wj > 0.0 && wk > 0.0
    ensures TripleQuotient(l, x, wi, wj, wk) == TripleFormula(l, x, wi, wj, wk)
    ensures TripleQuotient(l, x, wi, wj, wk) > 0.0 <==> x > 0.0
  {
    PairValue(l, x, wi, wj);
    var y, d := PairQuotient(l, x, wi, wj), wi * wj;
    ScaledPositive(l, y);
    DivPositive(l * y, wk);
    TimesQuotient(l, l * x, d);
    DivDiv(l * (l * x), d, wk);
  }

  /** A pair is written exactly if its weight exceeds the threshold, with score
      `L (Wij - t) / (Wi Wj)`. */
  lemma Score2Value(lidW: map<nat, real>, t: real, lids: Gram, weight: real)
    requires |lids| == 2 && Occurring(lidW, lids)
    ensures Score2(lidW, t)(lids, weight) ==
            if weight > t then PairFormula(|lidW| as real, weight - t, lidW[lids[0]], lidW[lids[1]]) else 0.0
    ensures Score2(lidW, t)(lids, weight) > 0.0 <==> weight > t
  {
    SomeLemmas(lidW, lids[0]);
    assert Known(lidW, lids);
    var q := PairQuotient(|lidW| as real, weight - t, lidW[lids[0]], lidW[lids[1]]);
    assert Score2(lidW, t)(lids, weight) == MaxZero(q);
    PairValue(|lidW| as real, weight - t, lidW[lids[0]], lidW[lids[1]]);
  }

  /** A triple is written exactly if its weight exceeds the threshold, with score
      `L^2 (Wijk - t) / (Wi Wj Wk)`. */
  lemma Score3Value(lidW: map<nat, real>, t: real, lids: Gram, weight: real)
    requires |lids| == 3 && Occurring(lidW, lids)
    ensures Score3(lidW, t)(lids, weight) ==
            if weight > t
            then TripleFormula(|lidW| as real, weight - t, lidW[lids[0]], lidW[lids[1]], lidW[lids[2]])
            else 0.0
    ensures Score3(lidW, t)(lids, weight) > 0.0 <==> weight > t
  {
    SomeLemmas(lidW, lids[0]);
    assert Known(lidW, lids);
    var q := TripleQuotient(|lidW| as real, weight - t, lidW[lids[0]], lidW[lids[1]], lidW[lids[2]]);
    assert Score3(lidW, t)(lids, weight) == MaxZero(q);
    TripleValue(|lidW| as real, weight - t, lidW[lids[0]], lidW[lids[1]], lidW[lids[2]]);
  }

  lemma TimesQuotient(l: real, x: real, d: real)
    requires d > 0.0
    ensures l * (x / d) == l * x / d
  {
    var q := x / d;
    assert q * d == x;
    assert l * q * d == l * x;
    assert (l * q - l * x / d) * d == 0.0;
  }

  /** `score` is `L (Wij - t) / (Wi Wj)`, without division. */
  ghost predicate IsPairScore(l: nat, w: real, t: real, wi: real, wj: real, score: real) {
    wi > 0.0 && wj > 0.0 && score > 0.0 && Mul(Mul(score, wi), wj) == Mul(l as real, w - t)
  }

  /** `score` is `L^2 (Wijk - t) / (Wi Wj Wk)`, without division. */
  ghost predicate IsTripleScore(l: nat, w: real, t: real, wi: real, wj: real, wk: real, score: real) {
    wi > 0.0 && wj > 0.0 && wk > 0.0 && score > 0.0
    && Mul(Mul(Mul(score, wi), wj), wk) == Mul(l as real, Mul(l as real, w - t))
  }

  /** In the source's terms: the excess over the threshold times `L`, over the product of the
      weights. */
  lemma PairScoreIff(l: nat, w: real, t: real, wi: real, wj: real, score: real)
    requires wi > 0.0 && wj > 0.0
    ensures wi * wj > 0.0
    ensures IsPairScore(l, w, t, wi, wj, score) <==> score > 0.0 && score == l as real * (w - t) / (wi * wj)
  {
    var x, d := l as real * (w - t), wi * wj;
    assert d > 0.0;
    assert score * wi * wj == score * d;
    QuotientIff(score, d, x);
  }

  lemma TripleScoreIff(l: nat, w: real, t: real, wi: real, wj: real, wk: real, score: real)
    requires wi > 0.0 && wj > 0.0 && wk > 0.0
    ensures wi * wj * wk > 0.0
    ensures IsTripleScore(l, w, t, wi, wj, wk, score) <==>
            score > 0.0 && score == l as real * (l as real * (w - t)) / (wi * wj * wk)
  {
    var x, d := l as real * (l as real * (w - t)), wi * wj * wk;
    assert wi * wj > 0.0;
    assert d > 0.0;
    FactorsOfScore(score, wi, wj, wk, wi * wj);
    QuotientIff(score, d, x);
  }

  lemma QuotientIff(score: real, d: real, x: real)
    requires d > 0.0
    ensures score * d == x <==> score == x / d
  {
    DivPositive(x, d);
    if score * d == x {
      assert (score - x / d) * d == 0.0;
    }
  }

  lemma PairFormulaScore(l: nat, w: real, t: real, wi: real, wj: real)
    requires wi > 0.0 && wj > 0.0 && PairFormula(l as real, w - t, wi, wj) > 0.0
    ensures IsPairScore(l, w, t, wi, wj, PairFormula(l as real, w - t, wi, wj))
  {
    var x, d := l as real * (w - t), wi * wj;
    assert d > 0.0;
    var q := x / d;
    DivPositive(x, d);
    assert q * d == x;
    assert q * wi * wj == q * d;
  }

  lemma TripleFormulaScore(l: nat, w: real, t: real, wi: real, wj: real, wk: real)
    requires wi > 0.0 && wj > 0.0 && wk > 0.0 && TripleFormula(l as real, w - t, wi, wj, wk) > 0.0
    ensures IsTripleScore(l, w, t, wi, wj, wk, TripleFormula(l as real, w - t, wi, wj, wk))
  {
    var x, d := l as real * (l as real * (w - t)), wi * wj * wk;
    assert wi * wj > 0.0 && d > 0.0;
    var q := x / d;
    DivPositive(x, d);
    assert q * d == x;
    assert q * wi * wj * wk == q * d;
  }

  /** If the joint weight is at most either lemma's weight and the threshold is not negative,
      the score times either weight is at most `L`. */
  lemma PairScoreBound(l: nat, w: real, t: real, wi: real, wj: real, score: real)
    requires IsPairScore(l, w, t, wi, wj, score) && t >= 0.0 && w <= wi && w <= wj
    ensures Mul(score, wi) <= l as real && Mul(score, wj) <= l as real
  {
    CancelFactor(score * wi, l as real, w - t, wj);
    assert score * wi * wj == score * wj * wi;
    CancelFactor(score * wj, l as real, w - t, wi);
  }

  ghost predicate ScoreWithin(score: real, a: real, b: real, l: nat) {
    Mul(Mul(score, a), b) <= Mul(l as real, l as real)
  }

  /** The order of the lemmas does not matter. */
  lemma TripleScoreTurns(l: nat, w: real, t: real, wi: real, wj: real, wk: real, score: real)
    requires IsTripleScore(l, w, t, wi, wj, wk, score)
    ensures IsTripleScore(l, w, t, wj, wk, wi, score)
  {
    assert score * wi * wj * wk == score * wj * wk * wi;
  }

  lemma TripleScoreWithin(l: nat, w: real, t: real, wi: real, wj: real, wk: real, score: real)
    requires IsTripleScore(l, w, t, wi, wj, wk, score) && t >= 0.0 && w <= wk
    ensures ScoreWithin(score, wi, wj, l)
  {
    var l2, x := l as real * l as real, w - t;
    assert l2 >= 0.0;
    assert l as real * (l as real * x) == l2 * x;
    CancelFactor(score * wi * wj, l2, x, wk);
  }

  /** Likewise, a triple's score times any two of the weights is at most `L^2`. */
  lemma TripleScoreBound(l: nat, w: real, t: real, wi: real, wj: real, wk: real, score: real)
    requires IsTripleScore(l, w, t, wi, wj, wk, score) && t >= 0.0 && w <= wi && w <= wj && w <= wk
    ensures ScoreWithin(score, wi, wj, l) && ScoreWithin(score, wj, wk, l) && ScoreWithin(score, wk, wi, l)
  {
    TripleScoreWithin(l, w, t, wi, wj, wk, score);
    TripleScoreTurns(l, w, t, wi, wj, wk, score);
    TripleScoreWithin(l, w, t, wj, wk, wi, score);
    TripleScoreTurns(l, w, t, wj, wk, wi, score);
    TripleScoreWithin(l, w, t, wk, wi, wj, score);
  }

  /** The documented score `(Wij - t) / (Wi Wj)` is the written one exactly if there is a single
      lemma. */
  lemma DocumentedPairScore(l: nat, w: real, t: real, wi: real, wj: real, score: real)
    requires IsPairScore(l, w, t, wi, wj, score)
    ensures score == PairFormula(1.0, w - t, wi, wj) <==> l == 1
    ensures score == l as real * PairFormula(1.0, w - t, wi, wj)
  {
    var x, d := w - t, wi * wj;
    assert d > 0.0;
    DivPositive(x, d);
    assert score * wi * wj == score * d;
    ScoreIsQuotient(score, d, l as real, x, x / d);
    ScaledScore(l as real, x / d, score);
  }

  /** So for triples, with `(Wijk - t) / (Wi Wj Wk)`. */
  lemma DocumentedTripleScore(l: nat, w: real, t: real, wi: real, wj: real, wk: real, score: real)
    requires IsTripleScore(l, w, t, wi, wj, wk, score)
    ensures score == PairFormula(1.0, w - t, wi, wj) / wk <==> l == 1
  {
    var x, d := w - t, wi * wj;
    assert d > 0.0 && d * wk > 0.0;
    DivDiv(x, d, wk);
    DivPositive(x, d * wk);
    var k, q := l as real * l as real, x / (d * wk);
    assert score * (d * wk) == k * x by {
      FactorsOfScore(score, wi, wj, wk, d);
      assert l as real * (l as real * x) == k * x;
    }
    ScoreIsQuotient(score, d * wk, k, x, q);
    ScaledScore(k, q, score);
    SquareOfOne(l);
  }

  lemma FactorsOfScore(score: real, wi: real, wj: real, wk: real, d: real)
    requires d == wi * wj
    ensures score * wi * wj * wk == score * (d * wk)
  {
  }

  lemma ScoreIsQuotient(score: real, d: real, k: real, x: real, q: real)
    requires d > 0.0 && score * d == k * x && q * d == x
    ensures score == k * q
  {
    assert k * q * d == k * x;
    assert (score - k * q) * d == 0.0;
  }

  lemma ScaledScore(r: real, q: real, score: real)
    requires score > 0.0 && score == r * q
    ensures score == q <==> r == 1.0
  {
    if score == q {
      assert Mul(1.0, q) == q;
      CancelProduct(r, 1.0, q);
    }
  }

  lemma SquareOfOne(l: nat)
    ensures l as real * l as real == 1.0 <==> l == 1
  {
    var r := l as real;
    if r * r == 1.0 {
      assert (r - 1.0) * (r + 1.0) == 0.0;
    }
  }

  lemma CancelFactor(a: real, l: real, x: real, b: real)
    requires b > 0.0 && l >= 0.0 && x <= b && a * b == l * x
    ensures a <= l
  {
    assert l * (b - x) >= 0.0;
    assert (l - a) * b >= 0.0;
  }
}
