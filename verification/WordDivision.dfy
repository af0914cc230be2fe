/** Division and remainder of whole numbers by a single word. */
module WordDivision {
  import opened Arithmetic
  import opened Words
  import opened LowLevel
  import opened Shifts
  import opened Storage
  import opened Integers
  import opened Wrappers

  /** The divisor is a power of two, as its bit length tells. */
  ghost predicate IsPower(divisor: word) {
    exists k: nat :: k < WORD_BITS && divisor == Two(k)
  }

  /** For a power of two, the exponent. */
  method PowerOf(divisor: word) returns (power: bool, k: nat)
    requires divisor > 0
    ensures power <==> IsPower(divisor)
    ensures power ==> k < WORD_BITS && divisor == Two(k)
  {
    hide Two;
    var h := LongDivision.BitPrecision(divisor);
    k := h - 1;
    power := divisor == Two(k);
    if !power {
      NoPower(divisor, k);
    }
  }

  lemma NoPower(divisor: word, k: nat)
    requires Two(k) < divisor < Two(k + 1)
    ensures !IsPower(divisor)
  {
    hide Two;
    if IsPower(divisor) {
      var j: nat :| j < WORD_BITS && divisor == Two(j);
      if j <= k { TwoMonotone(j, k); } else { TwoMonotone(k + 1, j); }
    }
  }

  /** One word at a time from the top: q := reg / divisor. */
  method DivideRun(reg: array<word>, n: nat, divisor: word, q: array<word>) returns (remainder: word)
    requires n <= reg.Length && n <= q.Length && reg != q && divisor > 0
    modifies q
    ensures V(reg[..], 0, n) == V(q[..], 0, n) * divisor + remainder && remainder < divisor
  {
    hide V;
    var i := n;
    remainder := 0;
    Empty(reg[..], n);
    Empty(q[..], n);
    while i > 0
      invariant 0 <= i <= n && remainder < divisor
      invariant V(reg[..], i, n - i) == V(q[..], i, n - i) * divisor + remainder
    {
      i := i - 1;
      ghost var q0 := q[..];
      var x := remainder * W + reg[i];
      QuotientWord(x, divisor, remainder, reg[i]);
      q[i] := x / divisor;
      SameV(q0, q[..], i + 1, n - i - 1);
      Low(reg[..], i, n - i);
      Low(q[..], i, n - i);
      Collect(q[i], V(q[..], i + 1, n - i - 1), divisor, remainder, x, x % divisor, reg[i]);
      remainder := x % divisor;
    }
  }

  lemma QuotientWord(x: int, d: int, r: int, a: word)
    requires 0 <= r < d && x == r * W + a
    ensures 0 <= x / d < W && 0 <= x % d < d && x == d * (x / d) + x % d
  {
    DivParts(x, d);
    if x / d >= W { MulMonotone(d, W, x / d); }
    if x / d < 0 { MulMonotone(d, x / d, -1); }
  }

  lemma Collect(q: int, qs: int, d: int, r: int, x: int, r': int, a: int)
    requires x == r * W + a == d * q + r'
    ensures a + W * (qs * d + r) == (q + W * qs) * d + r'
  {
    Distribute(q, W * qs, d);
    assert (W * qs) * d == W * (qs * d);
  }

  /** The magnitude of a number in a fresh array. */
  method Digits(x: nat) returns (reg: array<word>, n: nat)
    ensures fresh(reg) && n == WordCount(x) && n < reg.Length && V(reg[..], 0, n) == x
    ensures reg[0] == x % W
  {
    hide V, Pw, WordCount;
    n := WordCount(x);
    reg := new word[n + 2](i => 0);
    Store(reg, 0, n, x);
    LowestWord(reg[..], n, x);
  }

  lemma LowestWord(m: seq<word>, n: nat, x: nat)
    requires n < |m| && V(m, 0, n) == x < Pw(n) && (n == 0 ==> m[0] == 0)
    ensures m[0] == x % W
  {
    if n > 0 { DivUnique(x, W, V(m, 1, n - 1), m[0]); }
  }

  /** Dividend and divisor with sign and magnitude: the quotient and remainder
      of the original's division by a word. They are those of Euclidean division
      except for a negative dividend and a power of two that does not divide it. */
  method DivideByWord(dividend: int, divisor: word) returns (res: Option<(word, int)>)
    ensures res.None? <==> divisor == 0
    ensures res.Some? ==>
      (dividend == res.value.1 * divisor + res.value.0 && 0 <= res.value.0 < divisor
       <==> !(IsPower(divisor) && dividend < 0 && dividend % divisor != 0))
    ensures res.Some? && IsPower(divisor) ==>
      res.value == (Abs(dividend) % divisor, (if dividend < 0 then -1 else 1) * (Abs(dividend) / divisor))
  {
    if divisor == 0 {
      return None;  // DivideByZero
    }
    hide V, IsPower, Two, Abs, WordCount;
    AbsIs(dividend);
    var x := Abs(dividend);
    var power, k := PowerOf(divisor);
    var reg, n := Digits(x);
    ResidueSign(dividend, x, divisor);
    if power {
      var quotient: int := x / Two(k);
      if dividend < 0 {
        quotient := -quotient;
      }
      LowWordResidue(x, reg[0], k);
      PowerCase(dividend, x, divisor, quotient);
      return Some((reg[0] % divisor, quotient));
    }
    var q := new word[n + 2](i => 0);
    var remainder := DivideRun(reg, n, divisor, q);
    var quotient: int := Load(q, 0, n);
    ghost var q0: int := quotient;
    Signs(q0, divisor);
    if dividend < 0 {
      quotient := -quotient;
      if remainder != 0 {
        quotient := quotient - 1;
        remainder := divisor - remainder;
      }
    }
    return Some((remainder, quotient));
  }

  lemma AbsIs(x: int)
    ensures Abs(x) == if x < 0 then -x else x
  {
  }

  /** Below a power of two only the lowest word counts. */
  lemma LowWordResidue(x: int, low: word, k: nat)
    requires k < WORD_BITS && low == x % W
    ensures low % Two(k) == x % Two(k)
  {
    hide Two;
    TwoSplit(k);
    var p, q := Two(k), Two(WORD_BITS - k);
    DivParts(x, W);
    DivParts(low, p);
    assert W * (x / W) == p * (q * (x / W)) by { Regroup(p, q, x / W); }
    Distribute(q * (x / W), low / p, p);
    DivUnique(x, p, q * (x / W) + low / p, low % p);
  }

  lemma ResidueSign(a: int, x: nat, d: word)
    requires d > 0 && x == if a < 0 then -a else a
    ensures a % d == 0 <==> x % d == 0
  {
    DivParts(x, d);
    DivParts(a, d);
    if a < 0 {
      assert d * (-(x / d)) == -(d * (x / d)) && d * (-(a / d)) == -(d * (a / d));
      if x % d == 0 { DivUnique(a, d, -(x / d), 0); }
      if a % d == 0 { DivUnique(x, d, -(a / d), 0); }
    }
  }

  lemma PowerCase(a: int, x: nat, d: word, q: int)
    requires d > 0 && x == (if a < 0 then -a else a) && q == if a < 0 then -(x / d) else x / d
    ensures 0 <= x % d < d
    ensures a == q * d + x % d <==> !(a < 0 && x % d != 0)
  {
    DivParts(x, d);
    assert (-(x / d)) * d == -(d * (x / d));
  }

  /** The remainder alone is Euclidean for every dividend; for 3 and 5 it comes
      from the plain sum of the words. */
  method ModuloWord(dividend: int, divisor: word) returns (res: Option<word>)
    requires WordCount(Abs(dividend)) < W
    ensures res.None? <==> divisor == 0
    ensures res.Some? ==> res.value == dividend % divisor
  {
    if divisor == 0 {
      return None;  // DivideByZero
    }
    hide V, IsPower, Two, Abs, WordCount;
    AbsIs(dividend);
    var x := Abs(dividend);
    var power, k := PowerOf(divisor);
    var reg, n := Digits(x);
    var remainder: word;
    if power {
      LowWordResidue(x, reg[0], k);
      remainder := reg[0] % divisor;
    } else if divisor <= 5 {
      OnlyThreeAndFive(divisor);
      var sum := SumOfWords(reg, n, divisor);
      remainder := sum % divisor;
    } else {
      remainder := RemainderRun(reg, n, divisor);
    }
    FoldSign(dividend, x, divisor);
    if dividend < 0 && remainder != 0 {
      remainder := divisor - remainder;
    }
    return Some(remainder);
  }

  lemma FoldSign(a: int, x: nat, d: word)
    requires d > 0 && x == if a < 0 then -a else a
    ensures a % d == if a < 0 && x % d != 0 then d - x % d else x % d
  {
    DivParts(x, d);
    if a < 0 {
      assert d * (-(x / d)) == -(d * (x / d)) && d * (-(x / d) - 1) == -(d * (x / d)) - d;
      if x % d == 0 { DivUnique(a, d, -(x / d), 0); } else { DivUnique(a, d, -(x / d) - 1, d - x % d); }
    }
  }

  lemma OnlyThreeAndFive(divisor: word)
    requires 0 < divisor <= 5 && !IsPower(divisor)
    ensures divisor == 3 || divisor == 5
  {
    assert Two(0) == 1 && Two(1) == 2 && Two(2) == 4;
  }

  /** W leaves 1 modulo 3 and 5: the words can be added up. The sum fits two
      words. */
  method SumOfWords(reg: array<word>, n: nat, divisor: word) returns (sum: nat)
    requires n <= reg.Length && n < W && (divisor == 3 || divisor == 5)
    ensures sum % divisor == V(reg[..], 0, n) % divisor && sum < W * W
  {
    hide V;
    var i := n;
    sum := 0;
    Empty(reg[..], n);
    while i > 0
      invariant 0 <= i <= n && 0 <= sum <= (n - i) * (W - 1)
      invariant sum % divisor == V(reg[..], i, n - i) % divisor
    {
      i := i - 1;
      Low(reg[..], i, n - i);
      OneModulo(reg[i], V(reg[..], i + 1, n - i - 1), sum, divisor);
      sum := sum + reg[i];
    }
  }

  lemma OneModulo(a: int, v: int, sum: int, d: int)
    requires (d == 3 || d == 5) && sum % d == v % d
    ensures (sum + a) % d == (a + W * v) % d
  {
    if d == 3 {
      assert W == 3 * 1431655765 + 1;
    } else {
      assert W == 5 * 858993459 + 1;
    }
  }

  method RemainderRun(reg: array<word>, n: nat, divisor: word) returns (remainder: word)
    requires n <= reg.Length && divisor > 0
    ensures remainder == V(reg[..], 0, n) % divisor
  {
    hide V;
    var i := n;
    remainder := 0;
    Empty(reg[..], n);
    ZeroMod(divisor);
    while i > 0
      invariant 0 <= i <= n && remainder == V(reg[..], i, n - i) % divisor
    {
      i := i - 1;
      Low(reg[..], i, n - i);
      NextRemainder(reg[i], V(reg[..], i + 1, n - i - 1), divisor);
      remainder := (remainder * W + reg[i]) % divisor;
    }
  }

  lemma ZeroMod(d: word)
    requires d > 0
    ensures 0 % d == 0
  {
    DivUnique(0, d, 0, 0);
  }

  lemma NextRemainder(a: int, v: int, d: int)
    requires 0 < d
    ensures (v % d * W + a) % d == (a + W * v) % d && 0 <= (v % d * W + a) % d < d
  {
    DivParts(v, d);
    DivParts(v % d * W + a, d);
    var q := v / d;
    assert W * (d * q) == d * (W * q);
    CongruentBy(a + W * v, v % d * W + a, d, W * q);
    assert Congruent(a + W * v, v % d * W + a, d);
  }
}
