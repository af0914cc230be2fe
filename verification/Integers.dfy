/** The operations of class Integer over whole numbers: sign handling, and the
    calls into the word routines. An Integer is modelled by its value. */
module Integers {
  import opened Arithmetic
  import opened Words
  import opened LowLevel
  import opened Storage
  import opened Shifts
  import LongDivision
  import opened Wrappers

  /** Significant words of a magnitude. */
  function WordCount(x: nat): (n: nat)
    ensures x < Pw(n)
    ensures n > 0 ==> Pw(n - 1) <= x
  {
    if x == 0 then 0
    else
      var n := WordCount(x / W);
      WordCountStep(x, n);
      n + 1
  }

  lemma WordCountStep(x: nat, n: nat)
    requires x > 0 && x / W < Pw(n) && (n > 0 ==> Pw(n - 1) <= x / W)
    ensures x < Pw(n + 1) && Pw(n) <= x
  {
    hide Pw;
    PwShift(n, 1);
    assert Sh(Pw(n), 1) == W * Pw(n) by { assert Sh(Pw(n), 1) == W * Sh(Pw(n), 0); }
    if n == 0 {
      assert Pw(0) == 1 by { PwZero(); }
    } else {
      PwShift(n - 1, 1);
      assert Sh(Pw(n - 1), 1) == W * Pw(n - 1) by { assert Sh(Pw(n - 1), 1) == W * Sh(Pw(n - 1), 0); }
    }
  }

  lemma PwZero()
    ensures Pw(0) == 1
  {
  }

  /** Rounded up to an even number of words. */
  function EvenCount(x: nat): (n: nat)
    ensures n % 2 == 0 && x < Pw(n)
    ensures x > 0 ==> n >= 2 && Pw(n - 2) <= x
  {
    var n := WordCount(x);
    Pad(n);
    n + n % 2
  }

  lemma Pad(n: nat)
    ensures Pw(n) <= Pw(n + 1)
  {
    hide Pw;
    PwShift(n, 1);
    assert Sh(Pw(n), 1) == W * Pw(n) by { assert Sh(Pw(n), 1) == W * Sh(Pw(n), 0); }
  }

  lemma EvenCountMonotone(a: nat, b: nat)
    requires 0 < b <= a
    ensures EvenCount(b) <= EvenCount(a)
  {
    hide Pw, EvenCount;
    var n, k := EvenCount(a), EvenCount(b);
    if k > n { PwGrows(n, k - 2); }
  }

  /** Magnitudes: quotient and remainder of a / b. */
  method PositiveDivide(a: nat, b: nat) returns (res: Option<(nat, nat)>)
    ensures res.None? <==> b == 0
    ensures res.Some? ==> a == res.value.1 * b + res.value.0 && res.value.0 < b
  {
    if b == 0 {
      return None;  // DivideByZero
    }
    if a < b {
      return Some((a, 0));
    }
    hide EvenCount;
    EvenCountMonotone(a, b);
    var r, q := DivideWords(a, EvenCount(a), b, EvenCount(b));
    return Some((r, q));
  }

  /** Both magnitudes laid out in fresh memory and divided there. */
  method DivideWords(a: nat, aSize: nat, b: nat, bSize: nat) returns (r: nat, q: nat)
    requires 2 <= bSize <= aSize && aSize % 2 == 0 && bSize % 2 == 0
    requires a < Pw(aSize) && Pw(bSize - 2) <= b < Pw(bSize)
    ensures a == q * b + r && r < b
  {
    hide Pw, V;
    var mem := new word[3 * aSize + 4 * bSize + 8](_ => 0);
    Store(mem, 0, aSize, a);
    ghost var m1 := mem[..];
    Store(mem, aSize, bSize, b);
    Kept(m1, mem[..], aSize, bSize, 0, aSize);
    TopPairSet(mem[..], aSize, bSize);
    var R, Q, T := aSize + bSize, aSize + 2 * bSize, 2 * aSize + 2 * bSize + 2;
    LongDivision.Divide(mem, R, Q, T, 0, aSize, aSize, bSize);
    r := Load(mem, R, bSize);
    q := Load(mem, Q, aSize - bSize + 2);
  }

  lemma TopPairSet(m: seq<word>, p: nat, n: nat)
    requires 2 <= n && p + n <= |m| && V(m, p, n) >= Pw(n - 2)
    ensures m[p + n - 1] != 0 || m[p + n - 2] != 0
  {
    hide V, Pw;
    if m[p + n - 1] == 0 && m[p + n - 2] == 0 { DropPair(m, p, n); }
  }

  function Abs(x: int): nat {
    if x < 0 then -x else x
  }

  /** Integer::Divide: division with a remainder that is never negative. */
  method Divide(dividend: int, divisor: int) returns (res: Option<(int, int)>)
    ensures res.None? <==> divisor == 0
    ensures res.Some? ==> dividend == res.value.1 * divisor + res.value.0 && 0 <= res.value.0 < Abs(divisor)
  {
    var pair := PositiveDivide(Abs(dividend), Abs(divisor));
    if pair == None {
      return None;
    }
    var remainder: int, quotient: int := pair.value.0, pair.value.1;
    ghost var q0, b := quotient, Abs(divisor);
    if dividend < 0 {
      quotient := -quotient;
      if remainder != 0 {
        quotient := quotient - 1;
        remainder := Abs(divisor) - remainder;
      }
    }
    Signs(q0, b);
    if divisor < 0 {
      quotient := -quotient;
    }
    return Some((remainder, quotient));
  }

  lemma Signs(q: int, b: int)
    ensures (-q) * b == -(q * b) && (-q - 1) * b == -(q * b) - b
    ensures q * (-b) == -(q * b) && (-q) * (-b) == q * b && (q + 1) * (-b) == -(q * b) - b
  {
  }

  /** Quotient and remainder with these bounds are unique, so Divide is the
      Euclidean division that `/` and `%` denote. */
  lemma DivideIsEuclidean(dividend: int, divisor: int, r: int, q: int)
    requires divisor != 0 && dividend == q * divisor + r && 0 <= r < Abs(divisor)
    ensures q == dividend / divisor && r == dividend % divisor
  {
    var e := q - dividend / divisor;
    EuclidParts(dividend, divisor);
    assert divisor * e == dividend % divisor - r by { Distribute(q, dividend / divisor, divisor); }
    NoMultiple(divisor, e);
  }

  lemma EuclidParts(x: int, d: int)
    requires d != 0
    ensures x == d * (x / d) + x % d && 0 <= x % d < Abs(d)
  {
  }

  lemma NoMultiple(d: int, e: int)
    requires d != 0 && Abs(d * e) < Abs(d)
    ensures e == 0
  {
    assert (-d) * e == -(d * e);
    if e >= 1 { MulMonotone(Abs(d), 1, e); }
    if e <= -1 { MulMonotone(Abs(d), e, -1); }
  }

  /** Significant bits of a magnitude. */
  function BitCount(x: nat): (n: nat)
    ensures x < Two(n)
    ensures n > 0 ==> Two(n - 1) <= x
  {
    if x == 0 then 0 else BitCount(x / 2) + 1
  }

  /** Newton's iteration from above, stopped when it no longer falls. */
  method SquareRoot(n: int) returns (r: nat)
    ensures n <= 0 ==> r == 0
    ensures n > 0 ==> r * r <= n < (r + 1) * (r + 1)
  {
    if n <= 0 {
      return 0;
    }
    hide Two, BitCount;
    var y: nat := Two((BitCount(n) + 1) / 2);
    Overestimate(n, y);
    r := y;
    y := NextRoot(n, r);
    while y < r
      invariant 0 < r && 0 < y
      invariant n < (r + 1) * (r + 1) && n < (y + 1) * (y + 1)
      invariant y == (r + n / r) / 2
      decreases r
    {
      r := y;
      y := NextRoot(n, r);
    }
    StopsBelow(n, r, y);
  }

  lemma Overestimate(n: nat, y: nat)
    requires 0 < n && y == Two((BitCount(n) + 1) / 2)
    ensures 0 < y && n < y * y && n < (y + 1) * (y + 1)
  {
    hide Two, BitCount;
    var h := (BitCount(n) + 1) / 2;
    TwoAdd(h, h);
    TwoMonotone(BitCount(n), 2 * h);
    assert (y + 1) * (y + 1) == y * y + 2 * y + 1;
  }

  /** The mean of x and n / x, rounded down, is no smaller than the root. */
  method NextRoot(n: nat, x: nat) returns (y: nat)
    requires 0 < n && 0 < x
    ensures y == (x + n / x) / 2 && 0 < y && n < (y + 1) * (y + 1)
  {
    DivParts(n, x);
    ghost var q := n / x;
    Quotient0(n, x);
    y := (x + n / x) / 2;
    MeanBound(n, x, q, y);
  }

  lemma Quotient0(n: nat, x: nat)
    requires 0 < x
    ensures 0 <= n / x
  {
    DivParts(n, x);
    if n / x < 0 { MulMonotone(x, n / x, -1); }
  }

  lemma MeanBound(n: nat, x: nat, q: nat, y: nat)
    requires 0 < n && n < x * q + x && y == (x + q) / 2
    ensures n < (y + 1) * (y + 1) && 0 < y
  {
    Distribute(q, 1, x);
    FourTimes(x, q + 1);
    Squares(x + (q + 1), 2 * (y + 1));
    assert (2 * (y + 1)) * (2 * (y + 1)) == 4 * ((y + 1) * (y + 1));
  }

  lemma FourTimes(x: nat, u: nat)
    ensures 4 * (x * u) <= (x + u) * (x + u)
  {
    var d := x - u;
    Distribute(x, u, x + u);
    Distribute(x, u, x);
    Distribute(x, u, u);
    Distribute(x, u, d);
    assert d * d >= 0;
    assert d * d == x * x - 2 * (x * u) + u * u;
  }

  lemma Squares(a: nat, b: nat)
    requires a <= b
    ensures a * a <= b * b
  {
    MulMonotone(a, a, b);
    MulMonotone(b, a, b);
  }

  lemma StopsBelow(n: nat, x: nat, y: nat)
    requires 0 < x && y == (x + n / x) / 2 && y >= x
    ensures x * x <= n
  {
    DivParts(n, x);
    MulMonotone(x, x, n / x);
  }
}
