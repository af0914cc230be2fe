/** For which exponents FastTrack's repeated squaring is the power asked for. */
module BigExponents {
  import opened Arithmetic
  import opened Words
  import opened Shifts
  import opened BigPower

  ghost predicate SamePower(x: int, e: nat, f: nat, m: int)
    requires 0 < m
  {
    Power(x, e) % m == Power(x, f) % m
  }

  /** Moduli of which every significant word is used: those with a top word, and
      those that fit the lower half. */
  ghost predicate Modulus(m: int) {
    0 < m < Pw(32) || Pw(63) <= m < Pw(64)
  }

  /** Such a modulus, and any number below it, is used whole. */
  lemma WholeNumbers(num: seq<word>, mod: seq<word>)
    requires |num| == |mod| == 64 && Modulus(V(mod, 0, 64)) && V(num, 0, 64) < V(mod, 0, 64)
    ensures Number(mod, mod) == V(mod, 0, 64) && Number(num, mod) == V(num, 0, 64)
  {
    hide V, Pw, Sh;
    Top(mod, 0, 63);
    PwOne(63);
    ShMono(0, 0, 63);
    if mod[63] == 0 {
      LowerHalf(mod);
      LowerHalf(num);
    } else {
      ShMono(1, mod[63], 63);
      PwGrows(32, 63);
    }
  }

  lemma LowerHalf(m: seq<word>)
    requires |m| == 64 && V(m, 0, 64) < Pw(32)
    ensures V(m, 0, 32) == V(m, 0, 64)
  {
    hide V, Pw, Sh;
    Split(m, 0, 32, 32);
    PwOne(32);
    ShMono(0, 0, 32);
    if V(m, 32, 32) > 0 { ShMono(1, V(m, 32, 32), 32); }
  }

  /** The powers agree for every modulus of 64 words and every base below it. */
  ghost predicate AlwaysSame(e: nat, f: nat) {
    forall x: nat, m: nat :: x < m && Modulus(m) ==> SamePower(x, e, f, m)
  }

  /** What is computed is the power asked for, for every base and modulus the
      function takes, exactly when all the exponent's significant bits are ones.
      Exponents have up to 2048 bits. */
  lemma AllOnesOnly(e: nat, i: nat)
    requires i <= 2048 && e < Two(i) && (i > 0 ==> Two(i - 1) <= e)
    ensures AlwaysSame(Two(i) - 1, e) <==> e == Two(i) - 1
  {
    hide Two, SamePower, Modulus;
    var f: nat := Two(i) - 1;
    if e == f {
      forall x: nat, m: nat | x < m && Modulus(m)
        ensures SamePower(x, f, e, m)
      {
        SameExponent(x, e, m);
      }
    } else {
      var d := f - e;
      ShortDifference(d, e, i);
      var p := NoDivisor(d);
      SquareIsModulus(p);
      PowersDiffer(p, e, d);
      var x: nat, m: nat := 1 + p, p * p;
      assert !SamePower(x, f, e, m);
    }
  }

  lemma SameExponent(x: nat, e: nat, m: nat)
    requires 0 < m
    ensures SamePower(x, e, e, m)
  {
  }

  lemma ShortDifference(d: int, e: nat, i: nat)
    requires i <= 2048 && e < Two(i) && (i > 0 ==> Two(i - 1) <= e) && d == Two(i) - 1 - e > 0
    ensures d < Two(2047)
  {
    if i > 0 {
      TwoNext(i - 1);
      TwoMonotone(i - 1, 2047);
    }
  }

  /** One of 2^1024 - 1 and 2^1024 - 2 does not divide d: they have no common
      factor, and their product is larger. */
  lemma NoDivisor(d: int) returns (p: int)
    requires 0 < d < Two(2047)
    ensures Two(1024) - 2 <= p < Two(1024) && d % p != 0 && 1 < p
  {
    hide Two;
    var t: int := Two(1024);
    Large();
    p := t - 1;
    if d % p == 0 {
      var q := t - 2;
      p := q;
      if d % q == 0 {
        BothDivide(d, t - 1, q);
        ProductLarge(t);
        assert false;
      }
    }
  }

  lemma Large()
    ensures Two(1024) > 16
  {
    hide Two;
    TwoMonotone(5, 1024);
    TwoFive();
  }

  lemma TwoFive()
    ensures Two(5) == 32
  {
  }

  lemma BothDivide(d: int, p: int, q: int)
    requires 0 < d && 1 < q && p == q + 1 && d % p == 0 && d % q == 0
    ensures p * q <= d
  {
    DivParts(d, p);
    DivParts(d, q);
    var a, b := d / p, d / q;
    Distribute(p, q, d);
    Regroup(p, q, b);
    Regroup(q, p, a);
    assert p * (q * b) == (p * q) * b && q * (p * a) == (p * q) * a;
    Distribute(b, a, p * q);
    MulMonotone(q, 1, p);
    if b - a <= 0 { MulMonotone(p * q, b - a, 0); }
    MulMonotone(p * q, 1, b - a);
  }

  lemma ProductLarge(t: int)
    requires t == Two(1024) && t > 16
    ensures (t - 1) * (t - 2) > Two(2047)
  {
    hide Two;
    TwoAdd(1024, 1024);
    TwoNext(2047);
    MulMonotone(t, 16, t);
    Distribute(t, 1, t - 2);
    Distribute(t, 2, t);
  }

  /** The square of such a number has a top word. */
  lemma SquareIsModulus(p: int)
    requires Two(1024) - 2 <= p < Two(1024) && 1 < p
    ensures Modulus(p * p) && 1 + p < p * p
  {
    hide Two, Pw;
    Large();
    var t := Two(1024);
    TwoAdd(1024, 1024);
    TwoPw(64);
    TwoPw(63);
    TwoNext(2047);
    TwoMonotone(2016, 2047);
    ProductBelow(p, p, t, t);
    Distribute(t, 1, t - 2);
    Distribute(t, 2, t);
    MulMonotone(p, t - 2, p);
    MulMonotone(t - 2, t - 2, p);
    Distribute(t - 2, 2, t - 2);
    MulMonotone(t, 16, t);
    Distribute(t, 2, t - 2);
    MulMonotone(p, 3, p);
  }

  /** (1 + p)^a is 1 + a * p modulo p * p. */
  lemma {:induction false} PowerOfOnePlus(p: int, a: nat) returns (k: int)
    ensures Power(1 + p, a) == 1 + a * p + (p * p) * k
  {
    if a == 0 {
      k := 0;
    } else {
      var j := PowerOfOnePlus(p, a - 1);
      var b := a - 1;
      k := b + j + p * j;
      Expand(p, b, j);
      Distribute(b, 1, p);
    }
  }

  lemma Expand(p: int, b: int, j: int)
    ensures (1 + b * p + (p * p) * j) * (1 + p) == 1 + b * p + p + (p * p) * (b + j + p * j)
  {
    var s := p * p;
    Distribute(1, p, 1 + b * p + s * j);
    Distribute(1 + b * p, s * j, p);
    Distribute(1, b * p, p);
    Regroup(b, p, p);
    Regroup(s, j, p);
    Distribute(b + j, p * j, s);
    Distribute(b, j, s);
    assert (s * j) * p == s * (p * j);
  }

  lemma PowersDiffer(p: int, e: nat, d: nat)
    requires 1 < p && d % p != 0
    ensures 0 < p * p && !SamePower(1 + p, e + d, e, p * p)
  {
    hide Power;
    MulMonotone(p, 1, p);
    var s := p * p;
    var x, y := Power(1 + p, e + d), Power(1 + p, e);
    if x % s == y % s {
      var a := PowerOfOnePlus(p, e + d);
      var b := PowerOfOnePlus(p, e);
      DivParts(x, s);
      DivParts(y, s);
      var c := x / s - y / s;
      Distribute(x / s, y / s, s);
      Distribute(e, d, p);
      Distribute(a, b, s);
      Distribute(c, a - b, s);
      assert d * p == s * (c - (a - b));
      Regroup(p, p, c - (a - b));
      CancelFactor(d, p * (c - (a - b)), p);
      DivUnique(d, p, c - (a - b), 0);
    }
  }

  lemma CancelFactor(x: int, y: int, p: int)
    requires 1 < p && x * p == p * y
    ensures x == y
  {
    if x < y { MulMonotone(p, x + 1, y); Distribute(x, 1, p); }
    if x > y { MulMonotone(p, y + 1, x); Distribute(y, 1, p); }
  }
}
