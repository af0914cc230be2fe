/** Integer arithmetic the solver needs spelled out. */
module Arithmetic {
  lemma MulMonotone(p: int, x: int, y: int)
    requires 0 <= p && x <= y
    ensures p * x <= p * y && x * p <= y * p
  {
  }

  lemma DivParts(x: int, p: int)
    requires 0 < p
    ensures x == p * (x / p) + x % p && 0 <= x % p < p
  {
  }

  /** Quotient and remainder are determined by their equation. */
  lemma DivUnique(x: int, p: int, q: int, r: int)
    requires 0 < p && x == p * q + r && 0 <= r < p
    ensures x / p == q && x % p == r
  {
    DivParts(x, p);
    var d := q - x / p;
    assert p * d == x % p - r by { assert p * (q - x / p) == p * q - p * (x / p); }
    if d > 0 { MulMonotone(p, 1, d); }
    if d < 0 { MulMonotone(p, d, -1); }
  }

  lemma ProductBelow(x: int, y: int, p: int, q: int)
    requires 0 <= x < p && 0 <= y < q
    ensures 0 <= x * y < p * q
  {
    assert x * y <= x * q;
    assert x * q < p * q;
  }

  lemma Distribute(x: int, y: int, z: int)
    ensures (x + y) * z == x * z + y * z && z * (x + y) == z * x + z * y
    ensures (x - y) * z == x * z - y * z && z * (x - y) == z * x - z * y
  {
  }

  lemma Regroup(x: int, y: int, z: int)
    ensures (x * y) * z == x * (y * z) == (z * x) * y
  {
  }

  predicate Congruent(x: int, y: int, m: int)
    requires 0 < m
  {
    x % m == y % m
  }

  lemma CongruentMod(x: int, y: int, m: int)
    requires 0 < m && Congruent(x, y, m)
    ensures x % m == y % m
  {
  }

  lemma Reflexive(x: int, m: int)
    requires 0 < m
    ensures Congruent(x, x, m)
  {
  }

  lemma Symmetric(x: int, y: int, m: int)
    requires 0 < m && Congruent(x, y, m)
    ensures Congruent(y, x, m)
  {
  }

  lemma Transitive(x: int, y: int, z: int, m: int)
    requires 0 < m && Congruent(x, y, m) && Congruent(y, z, m)
    ensures Congruent(x, z, m)
  {
  }

  lemma CongruentBy(x: int, y: int, m: int, j: int)
    requires 0 < m && x == y + m * j
    ensures Congruent(x, y, m)
  {
    DivParts(y, m);
    Distribute(y / m, j, m);
    DivUnique(x, m, y / m + j, y % m);
  }

  lemma CongruentWitness(x: int, y: int, m: int) returns (j: int)
    requires 0 < m && Congruent(x, y, m)
    ensures x == y + m * j
  {
    DivParts(x, m);
    DivParts(y, m);
    j := x / m - y / m;
    Distribute(x / m, y / m, m);
  }

  lemma CongruentProduct(x: int, x': int, y: int, y': int, m: int)
    requires 0 < m && Congruent(x, x', m) && Congruent(y, y', m)
    ensures Congruent(x * y, x' * y', m)
  {
    hide Congruent;
    var j := CongruentWitness(x, x', m);
    var k := CongruentWitness(y, y', m);
    Distribute(x', m * j, y);
    Distribute(y', m * k, x');
    assert (m * j) * y == m * (j * y) && x' * (m * k) == m * (x' * k);
    Distribute(j * y, x' * k, m);
    CongruentBy(x * y, x' * y', m, j * y + x' * k);
  }

  lemma ReducedCongruent(x: int, m: int)
    requires 0 < m
    ensures Congruent(x % m, x, m) && 0 <= x % m < m
  {
    DivParts(x, m);
    DivUnique(x % m, m, 0, x % m);
  }

  ghost predicate IsInverse(x: int, A: int, M: int)
    requires 0 < M
  {
    (A * x) % M == 1 % M
  }

  ghost predicate Multiple(x: int, b: int)
    requires 0 < b
  {
    x % b == 0
  }

  lemma MultipleSum(x: int, y: int, b: int)
    requires 0 < b && Multiple(x, b) && Multiple(y, b)
    ensures Multiple(x + y, b) && Multiple(x - y, b)
  {
    DivParts(x, b);
    DivParts(y, b);
    Distribute(x / b, y / b, b);
    DivUnique(x + y, b, x / b + y / b, 0);
    DivUnique(x - y, b, x / b - y / b, 0);
  }

  lemma MultipleBasics(b: int)
    requires 0 < b
    ensures Multiple(0, b) && Multiple(b, b)
  {
    DivUnique(b, b, 1, 0);
  }

  lemma MultipleAtLeast(x: int, b: int)
    requires 0 < b && 0 < x && Multiple(x, b)
    ensures b <= x
  {
    DivParts(x, b);
    if x / b <= 0 { MulMonotone(b, x / b, 0); }
    MulMonotone(b, 1, x / b);
  }

  lemma MultipleProduct(n: nat, b: int)
    requires 0 < b
    ensures 0 <= n * b && Multiple(n * b, b)
  {
    MulMonotone(b, 0, n);
    DivUnique(n * b, b, n, 0);
  }

  function Min(x: nat, y: nat): nat {
    if x < y then x else y
  }
}
