/** The facts about products and quotients of reals that the other modules share. */
module RealArithmetic {

  function Abs(x: real): real { if x < 0.0 then -x else x }

  function Lesser(x: real, y: real): real { if x < y then x else y }

  function Greater(x: real, y: real): real { if x > y then x else y }

  lemma NonnegativeProduct(x: real, y: real)
    requires x >= 0.0 && y >= 0.0
    ensures x * y >= 0.0
  {
  }

  lemma PositiveProduct(x: real, y: real, p: real)
    requires x > 0.0 && y > 0.0 && p == x * y
    ensures p > 0.0
  {
  }

  lemma SameProduct(x: real, x': real, y: real, y': real)
    requires x == x' && y == y'
    ensures x * y == x' * y' && x * y == y' * x'
  {
  }

  lemma ZeroFactor(x: real, y: real)
    requires x != 0.0 && x * y == 0.0
    ensures y == 0.0
  {
  }

  lemma Cancel(h: real, v: real)
    requires h != 0.0
    ensures h * (v / h) == v
  {
  }

  lemma Square(x: real, y: real)
    requires y == x * x
    ensures y >= 0.0 && (y == 0.0 ==> x == 0.0)
  {
    if x > 0.0 {
      PositiveProduct(x, x, y);
    } else if x < 0.0 {
      assert y == (-x) * (-x);
      PositiveProduct(-x, -x, y);
    }
  }

  /** M_PI. */
  const PI := 3.14159265358979323846

  predicate RootOf(r: real, x: real) { r >= 0.0 && r * r == x }

  ghost predicate IsSqrt(sqrt: real -> real) { forall x :: x >= 0.0 ==> RootOf(sqrt(x), x) }

  lemma PositiveRoot(r: real, x: real)
    requires RootOf(r, x) && x > 0.0
    ensures r > 0.0
  {
  }
}
