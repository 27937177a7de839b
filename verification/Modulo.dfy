/** Division facts the drivers' index and block arithmetic needs. */
module Modulo {
  lemma ProductAtLeast(a: int, d: nat)
    requires a >= 1
    ensures a * d >= d
  {
    assert a * d == (a - 1) * d + d;
    assert (a - 1) * d >= 0;
  }

  lemma ProductMonotone(a: int, b: int, d: nat)
    requires a <= b
    ensures a * d <= b * d
  {
    assert b * d == a * d + (b - a) * d;
  }

  lemma DivModUnique(x: int, d: nat, q: int, r: int)
    requires d > 0 && 0 <= r < d && x == q * d + r
    ensures x / d == q && x % d == r
  {
    var q', r' := x / d, x % d;
    assert x == q' * d + r';
    assert (q - q') * d == q * d - q' * d;
    assert (q' - q) * d == q' * d - q * d;
    if q' < q { ProductAtLeast(q - q', d); }
    if q < q' { ProductAtLeast(q' - q, d); }
  }

  /** Moving by whole multiples does not change the remainder. */
  lemma AddMultiple(x: int, k: int, d: nat)
    requires d > 0
    ensures (x + k * d) % d == x % d && (x + k * d) / d == x / d + k
  {
    assert x + k * d == (x / d + k) * d + x % d by {
      assert x == (x / d) * d + x % d;
      assert (x / d + k) * d == (x / d) * d + k * d;
    }
    DivModUnique(x + k * d, d, x / d + k, x % d);
  }

  lemma MultipleMod(q: int, d: nat)
    requires d > 0
    ensures (q * d) % d == 0 && (q * d) / d == q
  {
    DivModUnique(q * d, d, q, 0);
  }

  /** The block of a byte inside an area of whole blocks is inside the area. */
  lemma BlockInside(x: nat, d: nat, n: nat)
    requires d > 0 && n % d == 0 && x < n
    ensures x - x % d + d <= n
  {
    var q, m := x / d, n / d;
    var below, all := q * d, m * d;
    assert x == below + x % d && n == all;
    assert (q + 1) * d == below + d;
    if q >= m { ProductMonotone(m, q, d); } else { ProductMonotone(q + 1, m, d); }
  }

  lemma DivMonotone(a: nat, b: nat, d: nat)
    requires d > 0 && a <= b
    ensures a / d <= b / d
  {
    var qa, qb := a / d, b / d;
    var pa, pb := qa * d, qb * d;
    assert a == pa + a % d && b == pb + b % d;
    assert (qb + 1) * d == pb + d;
    if qb < qa { ProductMonotone(qb + 1, qa, d); }
  }

  lemma BlockOf(k: nat, d: nat, q: nat)
    requires d > 0
    ensures k / d == q <==> q * d <= k < q * d + d
  {
    assert k == (k / d) * d + k % d;
    if q * d <= k < q * d + d { DivModUnique(k, d, q, k - q * d); }
  }

  /** At or behind a boundary, told by block numbers. */
  lemma BoundaryIff(k: nat, d: nat, boundary: nat)
    requires d > 0 && boundary % d == 0
    ensures k >= boundary <==> k / d >= boundary / d
  {
    if k >= boundary {
      DivMonotone(boundary, k, d);
    } else {
      BlockOf(k, d, k / d);
      if k / d >= boundary / d { ProductMonotone(boundary / d, k / d, d); }
    }
  }

  lemma Floor(x: nat, d: nat)
    requires d > 0
    ensures (x / d) * d == x - x % d && (x - x % d) % d == 0
  {
    MultipleMod(x / d, d);
  }

  lemma Less(n: int, d: nat)
    ensures (n - 1) * d == n * d - d
  {
  }

  lemma Distribute(a: int, b: int, d: nat)
    ensures (a - b) * d == a * d - b * d
  {
  }
}
