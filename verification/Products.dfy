/** Multiplication as a function, for reasoning by congruence about products. */
module Products {

  function Mul(a: real, b: real): real {
    a * b
  }

  function MulNat(a: nat, b: nat): nat {
    a * b
  }

  lemma MulZero(b: nat)
    ensures MulNat(0, b) == 0
  {
  }

  lemma MulSuccessor(a: nat, b: nat)
    ensures MulNat(a + 1, b) == MulNat(a, b) + b
  {
  }

  lemma AtLeastOnce(k: int, c: nat)
    requires k >= 1
    ensures k * c >= c
  {
    assert (k - 1) * c >= 0;
  }

  lemma DifferenceTimes(k: int, l: int, c: nat)
    ensures (k - l) * c == k * c - l * c
  {
  }

  /** Quotient and remainder are unique. */
  lemma SameQuotient(k: nat, r: nat, l: nat, t: nat, c: nat)
    requires r < c && t < c && k * c + r == l * c + t
    ensures k == l && r == t
  {
    DifferenceTimes(k, l, c);
    DifferenceTimes(l, k, c);
    if k > l {
      AtLeastOnce(k - l, c);
    } else if l > k {
      AtLeastOnce(l - k, c);
    }
  }

  lemma RemainderOfMultiple(k: nat, c: nat, r: nat)
    requires r < c
    ensures (MulNat(k, c) + r) % c == r
  {
    var x := MulNat(k, c) + r;
    assert x == x / c * c + x % c;
    SameQuotient(k, r, x / c, x % c, c);
  }

  lemma MulMonotone(a: real, b: real, c: real)
    requires 0.0 <= a && b <= c
    ensures Mul(a, b) <= Mul(a, c)
  {
  }

  lemma MulAtMost(a: real, b: real)
    requires 0.0 <= a <= 1.0 && 0.0 <= b
    ensures 0.0 <= Mul(a, b) <= b
  {
    var c := 1.0 - a;
    assert a * b >= 0.0;
    assert c * b >= 0.0;
    assert a * b + c * b == (a + c) * b;
  }

  /** `k` copies of a weight are at least one copy, if there is one. */
  lemma MulCopies(k: nat, w: nat)
    ensures k >= 1 ==> Mul(w as real, 1.0) <= Mul(k as real, w as real)
    ensures Mul(w as real, 0.0) <= Mul(k as real, w as real)
  {
    var k', w' := k as real, w as real;
    assert k' * w' >= 0.0;
    assert k >= 1 ==> (k' - 1.0) * w' >= 0.0;
  }

  lemma MulPositive(a: real, b: real)
    requires 0.0 <= a && 0.0 <= b
    ensures Mul(a, b) > 0.0 <==> a > 0.0 && b > 0.0
  {
  }

  lemma MulFractions(p: nat, q: nat, e: real, n: nat, s: real, t: nat)
    requires p as real == Mul(e, n as real) && q as real == Mul(s, t as real)
    ensures MulNat(p, q) as real == Mul(Mul(e, s), MulNat(n, t) as real)
  {
    var n', t' := n as real, t as real;
    assert (p * q) as real == p as real * q as real;
    assert (n * t) as real == n' * t';
    assert (e * n') * (s * t') == (e * s) * (n' * t');
  }

  ghost predicate IsFraction(r: real, part: nat, whole: nat) {
    Mul(r, whole as real) == part as real
  }

  lemma CancelProduct(a: real, b: real, w: real)
    requires w > 0.0 && Mul(a, w) == Mul(b, w)
    ensures a == b
  {
    assert (a - b) * w == 0.0;
  }

  /** The real number `part / whole`. */
  ghost function Fraction(part: nat, whole: nat): (r: real)
    requires whole > 0
    ensures IsFraction(r, part, whole)
  {
    assert IsFraction(part as real / whole as real, part, whole);
    var r :| IsFraction(r, part, whole);
    r
  }

  lemma ProductSign(r: real, w: real)
    requires w > 0.0
    ensures r * w > 0.0 <==> r > 0.0
    ensures r * w >= 0.0 <==> r >= 0.0
  {
    if r > 0.0 {
      assert r * w > 0.0;
    } else {
      assert -r * w >= 0.0;
      if r < 0.0 {
        assert -r * w > 0.0;
      }
    }
  }

  lemma FractionRange(r: real, part: nat, whole: nat)
    requires whole > 0 && part <= whole && IsFraction(r, part, whole)
    ensures 0.0 <= r <= 1.0 && (r > 0.0 <==> part > 0)
  {
    ProductSign(r, whole as real);
    ProductSign(1.0 - r, whole as real);
    assert (1.0 - r) * whole as real == whole as real - r * whole as real;
  }

  lemma FractionIsQuotient(part: nat, whole: nat)
    requires whole > 0
    ensures Fraction(part, whole) == part as real / whole as real
  {
    var q := part as real / whole as real;
    var d := Fraction(part, whole) - q;
    assert q * whole as real == part as real;
    assert d * whole as real == 0.0;
  }

  lemma DivPositive(a: real, b: real)
    requires b > 0.0
    ensures a / b > 0.0 <==> a > 0.0
    ensures a / b * b == a
  {
    var q := a / b;
    assert q * b == a;
    if q > 0.0 {
      assert q * b > 0.0;
    }
  }

  lemma DivDiv(a: real, b: real, c: real)
    requires b > 0.0 && c > 0.0
    ensures b * c > 0.0 && a / b / c == a / (b * c)
  {
    var q, d := a / b / c, b * c;
    assert q * c == a / b;
    assert a / b * b == a;
    assert q * d == q * c * b == a;
    assert (q - a / d) * d == 0.0;
  }
}
