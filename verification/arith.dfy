/** Facts about natural-number multiplication and floor division that the
    interest formula relies on. */
module Arith {

  lemma MulLeft(d: nat, a: nat, b: nat)
    requires a <= b
    ensures d * a <= d * b
  {
    assert d * b == d * a + d * (b - a);
  }

  /** Quotient and remainder are unique: `x == d*q + r` with `r < d` fixes `q`. */
  lemma DivUnique(x: nat, d: nat, q: nat, r: nat)
    requires 0 < d && r < d && x == d * q + r
    ensures x / d == q
  {
    var q' := x / d;
    var r' := x % d;
    assert x == d * q' + r';
    assert d * (q' + 1) == d * q' + d;
    assert d * (q + 1) == d * q + d;
    if q' < q {
      MulLeft(d, q' + 1, q);
      assert false;
    } else if q' > q {
      MulLeft(d, q + 1, q');
      assert false;
    }
  }

  /** Two successive truncating divisions equal one division by the product. */
  lemma DivDiv(x: nat, a: nat, b: nat)
    requires 0 < a && 0 < b
    ensures x / a / b == x / (a * b)
  {
    var q1, r1 := x / a, x % a;
    var q2, r2 := q1 / b, q1 % b;
    assert x == a * q1 + r1;
    assert q1 == b * q2 + r2;
    Distribute(a, b * q2, r2);
    assert a * (b * q2) == (a * b) * q2;
    RemainderBound(a, b, r1, r2);
    DivUnique(x, a * b, q2, a * r2 + r1);
  }

  lemma Distribute(a: nat, u: nat, v: nat)
    ensures a * (u + v) == a * u + a * v
  {
  }

  lemma RemainderBound(a: nat, b: nat, r1: nat, r2: nat)
    requires r1 < a && r2 < b
    ensures a * r2 + r1 < a * b
  {
    MulLeft(a, r2, b - 1);
    assert a * (b - 1) == a * b - a;
  }

  /** Floor division is monotone in the dividend. */
  lemma DivMono(x: nat, y: nat, d: nat)
    requires 0 < d && x <= y
    ensures x / d <= y / d
  {
    var qx, qy := x / d, y / d;
    assert y == d * qy + y % d;
    assert x == d * qx + x % d;
    assert d * (qy + 1) == d * qy + d;
    if qx > qy {
      MulLeft(d, qy + 1, qx);
      assert false;
    }
  }

  /** A common factor cancels out of a floor division. */
  lemma DivCancel(z: nat, c: nat, d: nat)
    requires 0 < c && 0 < d
    ensures z * c / (c * d) == z / d
  {
    DivUnique(z * c, c, z, 0);
    DivDiv(z * c, c, d);
  }
}
