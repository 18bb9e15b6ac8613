/** Integer facts the row-major layout and the decay schedule need. */
module Arith {

  lemma MulMono(a: int, b: int, l: nat)
    requires a <= b
    ensures a * l <= b * l
  {
  }

  /** r * l + x stays below bound * l when r < bound and x < l. */
  lemma MulAddBound(r: nat, x: nat, bound: nat, l: nat)
    requires r < bound && x < l
    ensures r * l + x < bound * l
  {
    MulMono(r + 1, bound, l);
  }

  lemma DivBound(p: nat, bound: nat, l: nat)
    requires p < bound * l
    ensures l > 0 && p / l < bound
  {
    if p / l >= bound {
      MulMono(bound, p / l, l);
    }
  }

  /** Division and remainder undo r * l + x. */
  lemma DivModOf(r: nat, x: nat, l: nat)
    requires x < l
    ensures (r * l + x) / l == r && (r * l + x) % l == x
  {
    var v := r * l + x;
    var q, m := v / l, v % l;
    assert v == q * l + m;
    if q > r {
      MulMono(r + 1, q, l);
    } else if q < r {
      MulMono(q + 1, r, l);
    }
  }

  /** Adding the divisor adds one to the quotient. */
  lemma DivShift(e: nat, l: nat)
    requires l > 0
    ensures (e + l) / l == e / l + 1
  {
    var q, r := e / l, e % l;
    assert e + l == (q + 1) * l + r;
    DivModOf(q + 1, r, l);
  }

  lemma DivMono(a: nat, b: nat, d: nat)
    requires d > 0 && a <= b
    ensures a / d <= b / d
  {
    assert a == (a / d) * d + a % d;
    assert b == (b / d) * d + b % d;
    if a / d > b / d {
      MulMono(b / d + 1, a / d, d);
    }
  }

  /** With both remainders below l, r * l + x orders lexicographically. */
  lemma MulAddLess(r1: nat, x1: nat, r2: nat, x2: nat, l: nat)
    requires x1 < l && x2 < l
    ensures r1 * l + x1 < r2 * l + x2 <==> r1 < r2 || (r1 == r2 && x1 < x2)
  {
    if r1 < r2 {
      MulMono(r1 + 1, r2, l);
    } else if r2 < r1 {
      MulMono(r2 + 1, r1, l);
    }
  }
}
