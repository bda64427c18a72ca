/** Small facts about real multiplication, each proved in isolation so that the solver never has to
    reason about several products at once. Squares are always written `Sq(e)`: a product of a term
    with itself is then only ever seen through this one definition. */
module RealArith {

  /** `a` squared. */
  function Sq(a: real): real {
    a * a
  }

  /** The product `a * b`, named so that facts about it can be stated without writing the product. */
  function Prod(a: real, b: real): real {
    a * b
  }

  lemma PosProd(a: real, b: real)
    requires a > 0.0 && b > 0.0
    ensures Prod(a, b) > 0.0
  {
  }

  lemma SquarePos(a: real)
    requires a != 0.0
    ensures Sq(a) > 0.0
  {
    if a > 0.0 {
      PosProd(a, a);
    } else {
      PosProd(-a, -a);
    }
  }

  lemma SquareNonneg(a: real)
    ensures Sq(a) >= 0.0
  {
    if a != 0.0 {
      SquarePos(a);
    }
  }

  lemma SquarePosIff(a: real)
    ensures Sq(a) >= 0.0
    ensures Sq(a) > 0.0 <==> a != 0.0
  {
    SquareNonneg(a);
    if a != 0.0 {
      SquarePos(a);
    }
  }

  lemma SquareOfNeg(a: real)
    ensures Sq(-a) == Sq(a)
  {
  }

  lemma MulLeftMono(k: real, p: real, q: real)
    requires k >= 0.0 && p <= q
    ensures Prod(k, p) <= Prod(k, q)
  {
    assert k * q - k * p == k * (q - p);
  }

  lemma MulRightStrict(p: real, q: real, k: real)
    requires k > 0.0 && p < q
    ensures Prod(p, k) < Prod(q, k)
  {
    assert q * k - p * k == (q - p) * k;
  }

  /** Products of non-negative factors grow strictly with strictly larger factors. */
  lemma ProductBelow(a: real, b: real, s: real, t: real)
    requires 0.0 <= a < s && 0.0 <= b < t
    ensures Prod(a, b) < Prod(s, t)
  {
    MulLeftMono(a, b, t);
    MulRightStrict(a, s, t);
  }

  /** For `a` closer to zero than `s`, the square of `a` is below the square of `s`. */
  lemma SquareBelow(a: real, s: real)
    requires -s < a < s
    ensures Sq(a) < Sq(s)
  {
    if a >= 0.0 {
      ProductBelow(a, a, s, s);
    } else {
      ProductBelow(-a, -a, s, s);
    }
  }

  lemma SumOfNonnegZero(p: real, q: real, r: real)
    requires p >= 0.0 && q >= 0.0 && r >= 0.0
    ensures p + q + r >= 0.0
    ensures p + q + r > 0.0 <==> p > 0.0 || q > 0.0 || r > 0.0
  {
  }

  lemma ProdNonneg(a: real, b: real)
    requires a >= 0.0 && b >= 0.0
    ensures Prod(a, b) >= 0.0
  {
    if a > 0.0 && b > 0.0 {
      PosProd(a, b);
    }
  }

  lemma MulRightMono(p: real, q: real, k: real)
    requires k >= 0.0 && p <= q
    ensures Prod(p, k) <= Prod(q, k)
  {
    ProdNonneg(q - p, k);
    assert Prod(q, k) - Prod(p, k) == Prod(q - p, k);
  }

  /** A product with a non-zero factor vanishes only when the other factor does. */
  lemma ProdZeroFactor(a: real, b: real)
    requires b != 0.0 && Prod(a, b) == 0.0
    ensures a == 0.0
  {
    if a > 0.0 && b > 0.0 {
      PosProd(a, b);
    } else if a > 0.0 {
      PosProd(a, -b);
    } else if a < 0.0 && b > 0.0 {
      PosProd(-a, b);
    } else if a < 0.0 {
      PosProd(-a, -b);
    }
  }

  /** Multiplying by a positive factor keeps the sign. */
  lemma SignOfProd(x: real, d: real)
    requires d > 0.0
    ensures Prod(x, d) > 0.0 <==> x > 0.0
    ensures Prod(x, d) >= 0.0 <==> x >= 0.0
  {
    if x > 0.0 {
      PosProd(x, d);
    } else if x < 0.0 {
      PosProd(-x, d);
      assert Prod(-x, d) == -Prod(x, d);
    }
  }

  /** Comparing `t` with `q / d` is comparing `t * d` with `q`, the order flipping for a negative `d`. */
  lemma CompareQuotient(q: real, d: real, t: real)
    requires d != 0.0
    ensures d > 0.0 ==> (Prod(q, 1.0 / d) <= t <==> q <= Prod(t, d))
    ensures d > 0.0 ==> (Prod(q, 1.0 / d) < t <==> q < Prod(t, d))
    ensures d > 0.0 ==> (t <= Prod(q, 1.0 / d) <==> Prod(t, d) <= q)
    ensures d > 0.0 ==> (t < Prod(q, 1.0 / d) <==> Prod(t, d) < q)
    ensures d < 0.0 ==> (Prod(q, 1.0 / d) <= t <==> Prod(t, d) <= q)
    ensures d < 0.0 ==> (Prod(q, 1.0 / d) < t <==> Prod(t, d) < q)
    ensures d < 0.0 ==> (t <= Prod(q, 1.0 / d) <==> q <= Prod(t, d))
    ensures d < 0.0 ==> (t < Prod(q, 1.0 / d) <==> q < Prod(t, d))
  {
    var u := Prod(q, 1.0 / d);
    assert Prod(u, d) == q by {
      assert (1.0 / d) * d == 1.0;
      assert q * (1.0 / d) * d == q * ((1.0 / d) * d);
    }
    assert Prod(t, d) - q == Prod(t - u, d);
    if d > 0.0 {
      SignOfProd(t - u, d);
      SignOfProd(u - t, d);
      assert Prod(u - t, d) == -Prod(t - u, d);
    } else {
      SignOfProd(t - u, -d);
      SignOfProd(u - t, -d);
      assert Prod(t - u, -d) == -Prod(t - u, d);
      assert Prod(u - t, -d) == Prod(t - u, d);
    }
  }

  lemma MulRightAnti(p: real, q: real, k: real)
    requires k <= 0.0 && p <= q
    ensures Prod(q, k) <= Prod(p, k)
  {
    ProdNonneg(q - p, -k);
    assert Prod(p, k) - Prod(q, k) == Prod(q - p, -k);
  }

  lemma SqOfSum(o: real, u: real)
    ensures Sq(o + u) == Sq(o) + 2.0 * Prod(o, u) + Sq(u)
  {
  }

  /** A common factor taken out of a sum of three products. */
  lemma FactorOfThree(a1: real, a2: real, a3: real, t: real)
    ensures Prod(a1, t) + Prod(a2, t) + Prod(a3, t) == Prod(a1 + a2 + a3, t)
  {
  }

  /** Pulling the factor `t` out of a product of `a` with `t * b`. */
  lemma ProdRotate(a: real, t: real, b: real)
    ensures Prod(a, Prod(t, b)) == Prod(Prod(a, b), t)
  {
  }

  lemma SqOfProd(t: real, d: real)
    ensures Sq(Prod(t, d)) == Prod(Sq(t), Sq(d))
  {
  }

  /** A square no larger than the square of a non-negative `s` has its root within [-s, s]. */
  lemma SquareAtMost(a: real, s: real)
    requires s >= 0.0 && Sq(a) <= Sq(s)
    ensures -s <= a <= s
  {
    if a > s {
      SquareBelow(s, a);
    } else if a < -s {
      SquareBelow(s, -a);
      SquareOfNeg(a);
    }
  }
}
