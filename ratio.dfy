/** Facts about products and quotients of reals that the score proofs use. */
module Ratio {

  lemma MulLeRight(a: real, b: real, c: real)
    requires a <= b && 0.0 <= c
    ensures a * c <= b * c
  {}

  lemma MulLtRight(a: real, b: real, c: real)
    requires a < b && 0.0 < c
    ensures a * c < b * c
  {}

  lemma MulNonNegative(a: real, b: real)
    requires 0.0 <= a && 0.0 <= b
    ensures 0.0 <= a * b
  {}

  lemma MulEq(a: real, b: real, c: real, d: real)
    requires a == c && b == d
    ensures a * b == c * d
  {}

  /** Scaling by a factor in [0, 1] keeps a non-negative value in [0, a]. */
  lemma ScaledBound(a: real, f: real)
    ensures 0.0 <= a && 0.0 <= f <= 1.0 ==> 0.0 <= a * f <= a
  {
    if 0.0 <= a && 0.0 <= f <= 1.0 {
      MulLeRight(f, 1.0, a);
      MulNonNegative(a, f);
    }
  }

  /** x / y <= z / w follows from the cross products. */
  lemma DivLe(x: real, y: real, z: real, w: real)
    requires y > 0.0 && w > 0.0 && x * w <= z * y
    ensures x / y <= z / w
  {
    var q, q' := x / y, z / w;
    assert q * y == x;
    assert q' * w == z;
    assert q * (y * w) <= q' * (y * w);
    if q > q' { MulLtRight(q', q, y * w); }
  }

  /** x / y < z / w follows from the cross products. */
  lemma DivLt(x: real, y: real, z: real, w: real)
    requires y > 0.0 && w > 0.0 && x * w < z * y
    ensures x / y < z / w
  {
    var q, q' := x / y, z / w;
    assert q * y == x;
    assert q' * w == z;
    assert q * (y * w) < q' * (y * w);
    if q >= q' { MulLeRight(q', q, y * w); }
  }

  /** x / y == z / w follows from the cross products. */
  lemma DivEq(x: real, y: real, z: real, w: real)
    requires y != 0.0 && w != 0.0 && x * w == z * y
    ensures x / y == z / w
  {
    var q, q' := x / y, z / w;
    assert q * y == x;
    assert q' * w == z;
    assert q * (y * w) == q' * (y * w);
  }
}
