/** Place-value arithmetic shared by the index computations. */
module Arith {
  lemma MulLe(a: nat, b: nat, c: nat)
    requires a <= b
    ensures a * c <= b * c
  {
  }

  /** One more digit in a mixed radix stays below the next place value. */
  lemma DigitBound(a: nat, p: nat, x: nat, w: nat)
    requires a < p && x < w
    ensures a * w + x < p * w
  {
    MulLe(a + 1, p, w);
    assert (a + 1) * w == a * w + w;
  }

  /** a·w + x determines a and x when x < w. */
  lemma MixedRadix(a: nat, x: nat, b: nat, y: nat, w: nat)
    requires x < w && y < w && a * w + x == b * w + y
    ensures a == b && x == y
  {
    if a < b {
      DigitBound(a, b, x, w);
    } else if b < a {
      DigitBound(b, a, y, w);
    }
  }
}
