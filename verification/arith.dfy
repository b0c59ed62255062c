/** Non-linear arithmetic facts used by the layout proofs. */
module Arith {
  lemma {:induction false} MulLe(a: nat, b: nat, d: nat)
    requires a <= b
    ensures a * d <= b * d
  {
    var e: nat := b - a;
    assert b * d == a * d + e * d;
  }

  /** A product of naturals is a natural and does not depend on the order of its factors. */
  lemma {:induction false} MulNat(a: nat, b: nat)
    ensures 0 <= a * b == b * a
  {
  }

  /** A block index q < n of blocks of size d, plus an offset r < d, stays below n * d. */
  lemma {:induction false} PlaneBound(q: nat, r: nat, d: nat, n: nat)
    requires q < n && r < d
    ensures q * d + r < n * d
  {
    MulLe(q + 1, n, d);
    assert (q + 1) * d == q * d + d;
  }

  lemma {:induction false} DivModUnique(k: int, d: int, q: int, r: int)
    requires 0 < d && 0 <= r < d && k == q * d + r
    ensures k / d == q && k % d == r
  {
    var q', r' := k / d, k % d;
    assert k == q' * d + r';
    assert (q - q') * d == r' - r;
    if q' < q {
      MulLe(1, q - q', d);
    } else if q < q' {
      MulLe(1, q' - q, d);
    }
  }

  lemma {:induction false} MulLtCancel(a: nat, b: nat, d: nat)
    requires a * d < b * d
    ensures a < b
  {
    if b <= a {
      MulLe(b, a, d);
    }
  }

  lemma {:induction false} DivBound(x: nat, d: nat, n: nat)
    requires x < n * d
    ensures d > 0 && x / d < n
  {
    MulLtCancel(0, d, n);
    MulLtCancel(x / d, n, d);
  }

  /**
   * The number of elements in c planes of n elements each. It equals n * c (PlanesProduct),
   * but spelled as repeated addition, so that stepping from one plane to the next is linear.
   */
  function Planes(n: nat, c: nat): nat
  {
    if c == 0 then 0 else Planes(n, c - 1) + n
  }

  lemma {:induction false} PlanesProduct(n: nat, c: nat)
    ensures Planes(n, c) == n * c
  {
    if c > 0 {
      PlanesProduct(n, c - 1);
      assert n * c == n * (c - 1) + n;
    }
  }

  lemma {:induction false} PlanesMono(n: nat, a: nat, b: nat)
    requires a <= b
    ensures Planes(n, a) <= Planes(n, b)
  {
    if a < b {
      PlanesMono(n, a, b - 1);
    }
  }

  /** Position x of plane c lies inside any cube of more than c planes. */
  lemma {:induction false} PlanesWithin(n: nat, c: nat, channels: nat, x: nat)
    requires c < channels && x < n
    ensures Planes(n, c) + x < Planes(n, channels)
  {
    PlanesMono(n, c + 1, channels);
  }

  /** An offset below c planes of p splits into whole planes, k / p of them, plus a remainder. */
  lemma {:induction false} DivModPlanes(k: nat, p: nat, channels: nat)
    requires k < Planes(p, channels)
    ensures p > 0 && k / p < channels && k == Planes(p, k / p) + k % p
  {
    PlanesProduct(p, channels);
    assert p * channels == channels * p;
    DivBound(k, p, channels);
    PlanesProduct(p, k / p);
    assert p * (k / p) == (k / p) * p;
  }

  /** An offset inside a rows x cols plane splits into a column, x / rows, and a row, x % rows. */
  lemma {:induction false} InPlaneSplit(x: nat, rows: nat, cols: nat)
    requires x < rows * cols
    ensures rows > 0 && x / rows < cols && x % rows < rows && x == (x / rows) * rows + x % rows
  {
    assert x < cols * rows;
    DivBound(x, rows, cols);
  }

  lemma {:induction false} PositiveProduct(a: nat, b: nat, c: nat)
    ensures a * b * c > 0 <==> a > 0 && b > 0 && c > 0
  {
    if a > 0 && b > 0 && c > 0 {
      MulLe(1, a, b);
      MulLe(1, a * b, c);
    }
  }
}
