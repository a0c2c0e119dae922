/** Division facts that the solver does not find by itself. */
module Arithmetic {

  lemma MulBounds(u: nat, d: int)
    requires 0 < u
    ensures (1 <= d ==> u <= u * d) && (d <= -1 ==> u * d + u <= 0)
  {
  }

  /** A quotient and remainder are what the division gives. */
  lemma Divides(a: nat, d: nat, q: nat, r: nat)
    requires a == d * q + r && r < d
    ensures a / d == q && a % d == r
  {
    var e := a / d - q;
    assert d * e == d * (a / d) - d * q;
    MulBounds(d, e);
  }

  lemma ModShift(x: nat, d: nat, k: nat)
    requires 0 < d
    ensures (x + d * k) % d == x % d
  {
    assert x + d * k == d * (x / d + k) + x % d;
    Divides(x + d * k, d, x / d + k, x % d);
  }
}
