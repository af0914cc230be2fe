/** InverseMod of class Integer: for whole numbers, and for one-word moduli. */
module Inverses {
  import opened Arithmetic
  import opened Words
  import opened AlmostInversion
  import opened Storage
  import opened Modular
  import opened Integers
  import opened Wrappers

  /** The odd case, in words. */
  method InverseModOdd(a: nat, m: nat) returns (r: nat)
    requires a < m && m % 2 == 1
    ensures InverseOrZero(r, a, m)
  {
    hide V, Pw, EvenCount, InverseOrZero;
    var N := EvenCount(m);
    var mem := new word[7 * N](_ => 0);
    Store(mem, 0, N, m);
    ghost var m1 := mem[..];
    Store(mem, N, N, a);
    Kept(m1, mem[..], N, N, 0, N);
    InverseOdd(mem, 2 * N, 3 * N, N, 0, N);
    r := Load(mem, 2 * N, N);
  }

  lemma SameResidue(a: int, m: int, x: int)
    requires 0 < m
    ensures IsInverse(x, a % m, m) <==> IsInverse(x, a, m)
  {
    hide Congruent;
    ReducedCongruent(a, m);
    Reflexive(x, m);
    CongruentProduct(a % m, a, x, x, m);
    CongruentMod((a % m) * x, a * x, m);
    assert (a % m) * x == x * (a % m) && a * x == x * a;
  }

  lemma ResidueInverse(v: int, a: int, m: int)
    requires 0 < m
    ensures InverseOrZero(v, a % m, m) <==> InverseOrZero(v, a, m)
  {
    hide IsInverse;
    forall x
      ensures IsInverse(x, a % m, m) <==> IsInverse(x, a, m)
    {
      SameResidue(a, m, x);
    }
  }

  /** Inverses are mutual: a*y = 1 + m*j makes -j an inverse of m modulo a. */
  lemma Mutual(a: int, m: int, y: int)
    requires 1 < a && 1 < m && IsInverse(y, a, m)
    ensures exists x :: IsInverse(x, m, a)
  {
    hide Congruent;
    DivUnique(1, m, 0, 1);
    DivParts(a * y, m);
    var j := (a * y) / m;
    assert m * (-j) == 1 - a * y by { assert m * (-j) == -(m * j); }
    assert 1 - a * y == 1 + a * (-y) by { assert a * (-y) == -(a * y); }
    CongruentBy(m * (-j), 1, a, -y);
    InverseIntro(-j, m, a);
  }

  /** The even case from the inverse u of m modulo a. */
  lemma FromMutual(a: int, m: int, u: int, r: int)
    requires 1 < a < m && InverseOrZero(u, m, a)
    requires r == if u == 0 then 0 else (m * (a - u) + 1) / a
    ensures InverseOrZero(r, a, m)
  {
    hide IsInverse;
    if u == 0 {
      ZeroIsNoInverse(m, a);
      forall y
        ensures !IsInverse(y, a, m)
      {
        if IsInverse(y, a, m) { Mutual(a, m, y); }
      }
    } else {
      var k := EvenQuotient(a, m, u);
      assert r == k;
      InverseIs(k, a, m, a - u);
    }
  }

  lemma ZeroIsNoInverse(a: int, m: int)
    requires 1 < m
    ensures !IsInverse(0, a, m)
  {
    DivUnique(1, m, 0, 1);
    assert a * 0 == 0;
    DivUnique(0, m, 0, 0);
  }

  /** a divides m * (a - u) + 1 exactly. */
  lemma EvenQuotient(a: int, m: int, u: int) returns (k: int)
    requires 1 < a < m && 0 < u < a && InverseOrZero(u, m, a)
    ensures m * (a - u) + 1 == a * k && (m * (a - u) + 1) / a == k && 0 <= k < m
  {
    var j := InverseWitness(u, m, a);
    Distribute(a, u, m);
    Distribute(m, j, a);
    k := m - j;
    DivUnique(m * (a - u) + 1, a, k, 0);
    MulMonotone(m, 1, a - u);
    MulMonotone(m, a - u, a - 1);
    Distribute(a, 1, m);
    if k < 0 { MulMonotone(a, k, -1); }
    if k >= m { MulMonotone(a, m, k); }
  }

  lemma InverseWitness(u: int, m: int, a: int) returns (j: int)
    requires 1 < a && 0 < u && InverseOrZero(u, m, a)
    ensures m * u == 1 + a * j
  {
    DivUnique(1, a, 0, 1);
    DivParts(m * u, a);
    j := (m * u) / a;
  }

  lemma InverseIs(k: int, a: int, m: int, e: int)
    requires 1 < m && 0 <= k < m && a * k == m * e + 1
    ensures InverseOrZero(k, a, m)
  {
    CongruentBy(a * k, 1, m, e);
    InverseIntro(k, a, m);
  }

  /** Integer::InverseMod: the inverse modulo any positive m, or zero. A zero
      modulus fails in the reduction. */
  method InverseMod(a: int, m: nat) returns (res: Option<nat>)
    ensures res.None? <==> m == 0
    ensures res.Some? ==> InverseOrZero(res.value, a, m)
    decreases m, if a < 0 || a >= m then 1 else 0
  {
    hide InverseOrZero;
    if a < 0 || a >= m {
      if m == 0 {
        return None;
      }
      var reduced := a % m;
      ReducedCongruent(a, m);
      res := InverseMod(reduced, m);
      ResidueInverse(res.value, a, m);
      return;
    }
    if m % 2 == 0 {
      if a % 2 == 0 {
        EvenNoInverse(a, m);
        return Some(0);
      }
      if a == 1 {
        OneIsInverse(m);
        return Some(1);
      }
      var u := InverseMod(m, a);
      InverseBounds(u.value, m, a);
      if u.value == 0 {
        FromMutual(a, m, 0, 0);
        return Some(0);
      }
      ghost var k := EvenQuotient(a, m, u.value);
      FromMutual(a, m, u.value, k);
      return Some((m * (a - u.value) + 1) / a);
    }
    var r := InverseModOdd(a, m);
    return Some(r);
  }

  lemma InverseBounds(v: int, a: int, m: int)
    requires 0 < m && InverseOrZero(v, a, m)
    ensures 0 <= v < m
  {
  }

  lemma OneIsInverse(m: nat)
    requires 1 < m
    ensures InverseOrZero(1, 1, m)
  {
    InverseIs(1, 1, m, 0);
  }

  lemma EvenNoInverse(a: nat, m: nat)
    requires 0 < m && a % 2 == 0 && m % 2 == 0
    ensures InverseOrZero(0, a, m)
  {
    hide IsInverse;
    forall x
      ensures !IsInverse(x, a, m)
    {
      NoInverse(a, m, a / 2, m / 2, 2, x);
    }
  }

  /** What the unrolled Euclid loop keeps: both rows are congruent to a multiple
      of a, up to sign, and the cofactors stay small because v0*g1 + v1*g0 = mod. */
  ghost predicate Rows(g0: int, g1: int, v0: int, v1: int, a: int, m: int, sign: int, p: int, q: int) {
    && 0 < m && 0 <= g1 < g0 && 0 <= v0 && 1 <= v1 && (sign == 1 || sign == -1)
    && v0 * g1 + v1 * g0 == m
    && Congruent(sign * (v1 * a), g1, m) && Congruent(-sign * (v0 * a), g0, m)
    && a % m == p * g0 + q * g1
    && (g1 == 0 ==> g0 > 1 || m == 1)
  }

  lemma RowsStart(a: int, m: int)
    requires 0 < m
    ensures Rows(m, a % m, 0, 1, a, m, 1, 0, 1)
  {
    ReducedCongruent(a, m);
    DivUnique(0, m, 0, 0);
    DivUnique(m, m, 1, 0);
  }

  /** One division: g0 := g0 mod g1 and v0 += (g0 / g1) * v1, rows exchanged. */
  lemma RowsStep(g0: int, g1: int, v0: int, v1: int, a: int, m: int, sign: int, p: int, q: int)
    returns (p': int, q': int)
    requires Rows(g0, g1, v0, v1, a, m, sign, p, q) && 1 < g1
    ensures Rows(g1, g0 % g1, v1, v0 + (g0 / g1) * v1, a, m, -sign, p', q')
    ensures (g0 / g1) * v1 <= v0 + (g0 / g1) * v1 <= m && 1 <= g0 / g1 <= m
  {
    hide Congruent;
    DivParts(g0, g1);
    var y, r := g0 / g1, g0 % g1;
    if y <= 0 { MulMonotone(g1, y, 0); }
    StepSum(g0, g1, v0, v1, y, r, m);
    StepCongruent(g0, g1, v0, v1, y, r, a, m, sign);
    p', q' := q + p * y, p;
    assert p * g0 + q * g1 == (q + p * y) * g1 + p * r by {
      Distribute(q, p * y, g1);
      Distribute(g1 * y, r, p);
      assert (p * y) * g1 == p * (g1 * y);
    }
  }

  lemma StepSum(g0: int, g1: int, v0: int, v1: int, y: int, r: int, m: int)
    requires 1 < g1 && 0 <= v0 && 1 <= v1 && 1 <= y && 0 <= r && g0 == g1 * y + r && v0 * g1 + v1 * g0 == m
    ensures v1 * r + (v0 + y * v1) * g1 == m
    ensures 0 <= y * v1 && 1 <= v0 + y * v1 <= m && y <= m
  {
    Distribute(v0, y * v1, g1);
    Distribute(g1 * y, r, v1);
    assert (y * v1) * g1 == v1 * (g1 * y);
    MulMonotone(v1, 1, y);
    MulMonotone(v1, 0, r);
    MulMonotone(y, 1, v1);
    MulMonotone(v0 + y * v1, 1, g1);
  }

  lemma StepCongruent(g0: int, g1: int, v0: int, v1: int, y: int, r: int, a: int, m: int, sign: int)
    requires 0 < m && g0 == g1 * y + r
    requires Congruent(sign * (v1 * a), g1, m) && Congruent(-sign * (v0 * a), g0, m)
    ensures Congruent(-sign * ((v0 + y * v1) * a), r, m) && Congruent(sign * (v1 * a), g1, m)
  {
    hide Congruent;
    var s, t := sign * (v1 * a), -sign * (v0 * a);
    var j := CongruentWitness(s, g1, m);
    var k := CongruentWitness(t, g0, m);
    assert -sign * ((v0 + y * v1) * a) == t - y * s by {
      Distribute(v0, y * v1, a);
      Distribute(v0 * a, (y * v1) * a, -sign);
      assert (y * v1) * a == y * (v1 * a);
      assert -sign * (y * (v1 * a)) == -(y * (sign * (v1 * a)));
    }
    assert y * s == y * g1 + m * (y * j) by { Distribute(g1, m * j, y); assert y * (m * j) == m * (y * j); }
    Distribute(k, y * j, m);
    CongruentBy(t - y * s, r, m, k - y * j);
  }

  /** The remainder 1 delivers the inverse; the sign says which of the two. */
  lemma RowsDone(g0: int, v0: int, v1: int, a: int, m: int, sign: int, p: int, q: int)
    requires Rows(g0, 1, v0, v1, a, m, sign, p, q)
    ensures 1 <= v1 < m
    ensures InverseOrZero(if sign == 1 then v1 else m - v1, a, m)
  {
    hide Congruent;
    MulMonotone(v1, 2, g0);
    var r := if sign == 1 then v1 else m - v1;
    if sign == 1 {
      assert a * r == sign * (v1 * a);
    } else {
      Distribute(m, v1, a);
      assert a * r == sign * (v1 * a) + m * a;
      var j := CongruentWitness(sign * (v1 * a), 1, m);
      Distribute(j, a, m);
      CongruentBy(a * r, 1, m, j + a);
    }
    InverseIntro(r, a, m);
  }

  /** A zero remainder leaves a common factor, so there is no inverse. */
  lemma RowsFail(g0: int, v0: int, v1: int, a: int, m: int, sign: int, p: int, q: int)
    requires Rows(g0, 0, v0, v1, a, m, sign, p, q)
    ensures InverseOrZero(0, a, m)
  {
    hide IsInverse;
    if m == 1 {
      InverseModOne(a);
    } else {
      MulMonotone(g0, 1, v1);
      forall x
        ensures !IsInverse(x, a, m)
      {
        NoInverse(a % m, m, p, v1, g0, x);
        SameResidue(a, m, x);
      }
    }
  }

  lemma InverseModOne(a: int)
    ensures InverseOrZero(0, a, 1)
  {
  }

  /** y = g0 / g1; g0 %= g1; v0 += y * v1. */
  method EuclidStep(g0: word, g1: word, v0: word, v1: word, ghost a: int, ghost m: word, ghost sign: int,
      ghost p: int, ghost q: int)
    returns (r: word, v: word, ghost p': int, ghost q': int)
    requires 1 < g1 && Rows(g0, g1, v0, v1, a, m, sign, p, q)
    ensures r < g1 && Rows(g1, r, v1, v, a, m, -sign, p', q')
  {
    hide Rows;
    p', q' := RowsStep(g0, g1, v0, v1, a, m, sign, p, q);
    DivParts(g0, g1);
    var y: word := g0 / g1;
    r := g0 % g1;
    v := v0 + y * v1;
  }

  /** Integer::InverseMod for a one-word modulus, in unsigned words only: no
      product or sum in it leaves the word range. */
  method InverseModWord(a: int, mod: word) returns (r: Option<word>)
    ensures r.None? <==> mod == 0
    ensures r.Some? ==> InverseOrZero(r.value, a, mod)
  {
    hide Rows, InverseOrZero;
    if mod == 0 {
      return None;  // DivideByZero, from the first remainder
    }
    ReducedCongruent(a, mod);
    var g0, g1: word := mod, a % mod;
    var v0: word, v1: word := 0, 1;
    ghost var p, q := 0, 1;
    RowsStart(a, mod);
    while g1 != 0
      invariant Rows(g0, g1, v0, v1, a, mod, 1, p, q)
      decreases g1
    {
      if g1 == 1 {
        RowsDone(g0, v0, v1, a, mod, 1, p, q);
        return Some(v1);
      }
      g0, v0, p, q := EuclidStep(g0, g1, v0, v1, a, mod, 1, p, q);
      if g0 == 0 {
        RowsFail(g1, v1, v0, a, mod, -1, p, q);
        return Some(0);
      }
      if g0 == 1 {
        RowsDone(g1, v1, v0, a, mod, -1, p, q);
        return Some(mod - v0);
      }
      g1, v1, p, q := EuclidStep(g1, g0, v1, v0, a, mod, -1, p, q);
    }
    RowsFail(g0, v0, v1, a, mod, 1, p, q);
    return Some(0);
  }
}
