/** Inverses modulo an arbitrary modulus. */
module Modular {
  import opened Arithmetic
  import opened Words
  import opened LowLevel
  import opened Shifts
  import opened AlmostInversion

  /** A common factor 2 may be dropped modulo an odd m. */
  lemma CancelTwo(x: int, y: int, m: int)
    requires 0 < m && m % 2 == 1 && Congruent(2 * x, 2 * y, m)
    ensures Congruent(x, y, m)
  {
    hide Congruent;
    var j := CongruentWitness(2 * x, 2 * y, m);
    OddFactorEven(m, j, x - y);
    var h := j / 2;
    assert m * j == 2 * (m * h) by { assert j == 2 * h; }
    CongruentBy(x, y, m, h);
  }

  lemma OddFactorEven(m: int, j: int, d: int)
    requires m % 2 == 1 && m * j == 2 * d
    ensures j % 2 == 0
  {
    var n := m / 2;
    assert (2 * n + 1) * j == 2 * (n * j) + j;
  }

  lemma {:induction false} CancelTwos(x: int, y: int, m: int, k: nat)
    requires 0 < m && m % 2 == 1 && Congruent(x * Two(k), y * Two(k), m)
    ensures Congruent(x, y, m)
  {
    if k > 0 {
      assert x * Two(k) == 2 * (x * Two(k - 1)) && y * Two(k) == 2 * (y * Two(k - 1));
      CancelTwo(x * Two(k - 1), y * Two(k - 1), m);
      CancelTwos(x, y, m, k - 1);
    } else {
      MulOne(x);
      MulOne(y);
    }
  }

  /** R := (R + carry * W^N) / 2, exactly; the result must fit. */
  method Halve(mem: array<word>, R: nat, N: nat, carry: word)
    requires 0 < N && R + N <= mem.Length && carry <= 1
    requires (V(mem[..], R, N) + Sh(carry, N)) % 2 == 0 && V(mem[..], R, N) + Sh(carry, N) < 2 * Pw(N)
    modifies mem
    ensures Frame(old(mem[..]), mem[..], R, N)
    ensures 2 * V(mem[..], R, N) == V(old(mem[..]), R, N) + Sh(carry, N)
  {
    hide V, Sh, Pw;
    ghost var m0 := mem[..];
    var _, rem := ShiftWordsRightByBits(mem, R, N, 1);
    TwoOne();
    ghost var m1 := mem[..];
    EvenPower(carry, N);
    Top(m1, R, N - 1);
    HalfTop(V(m1, R, N), V(m1, R, N - 1), m1[R + N - 1], N);
    HalfWord(carry, N);
    mem[R + N - 1] := mem[R + N - 1] + carry * (W / 2);
    Grow(m1, mem[..], R, N - 1);
    ShAdd(m1[R + N - 1], carry * (W / 2), N - 1);
  }

  lemma TwoOne()
    ensures Two(1) == 2
  {
    assert Two(1) == 2 * Two(0);
  }

  lemma EvenPower(c: int, N: nat)
    requires 0 < N
    ensures Sh(c, N) % 2 == 0
  {
  }

  /** The top word of half a number has its top bit clear. */
  lemma HalfTop(v: int, low: int, top: word, N: nat)
    requires 0 < N && v == low + Sh(top, N - 1) && low >= 0 && 2 * v < Pw(N)
    ensures top < W / 2
  {
    hide Sh, Pw;
    PwShift(1, N - 1);
    PwWord();
    if top >= W / 2 { ShMono(W / 2, top, N - 1); ShAdd(W / 2, W / 2, N - 1); }
  }

  lemma HalfWord(c: word, N: nat)
    requires 0 < N
    ensures 2 * Sh(c * (W / 2), N - 1) == Sh(c, N)
  {
    hide Sh;
    ShAdd(c * (W / 2), c * (W / 2), N - 1);
    ShW(c, N - 1);
    assert c * (W / 2) + c * (W / 2) == W * c;
  }

  /** R := A / 2^k modulo M, one halving at a time. */
  method DivideByPower2Mod(mem: array<word>, R: nat, A: nat, k: nat, M: nat, N: nat)
    requires 2 <= N && N % 2 == 0
    requires R + N <= mem.Length && A + N <= mem.Length && M + N <= mem.Length
    requires R == A || Disjoint(R, N, A, N)
    requires Disjoint(R, N, M, N)
    requires V(mem[..], A, N) < V(mem[..], M, N) && V(mem[..], M, N) % 2 == 1
    modifies mem
    ensures Frame(old(mem[..]), mem[..], R, N)
    ensures V(mem[..], R, N) < V(old(mem[..]), M, N)
    ensures Congruent(V(mem[..], R, N) * Two(k), V(old(mem[..]), A, N), V(old(mem[..]), M, N))
  {
    hide V, Sh, Pw, Two, Congruent;
    ghost var m0 := mem[..];
    ghost var a, m := V(m0, A, N), V(m0, M, N);
    CopyWords(mem, R, A, N);
    Same(a, m);
    hide Share;
    var n: nat := k;
    while n > 0
      invariant n <= k
      invariant Frame(m0, mem[..], R, N)
      invariant V(mem[..], R, N) < m
      invariant Share(V(mem[..], R, N), k - n, a, m)
    {
      n := n - 1;
      Kept(m0, mem[..], R, N, M, N);
      ghost var r := V(mem[..], R, N);
      ghost var odd := HalveMod(mem, R, M, N);
      Doubled(V(mem[..], R, N), r, odd, k - n, a, m);
    }
    Shared(V(mem[..], R, N), k - n, k, a, m);
  }

  /** v * 2^k is a modulo m. */
  ghost predicate Share(v: int, k: nat, a: int, m: int) {
    0 < m && Congruent(v * Two(k), a, m)
  }

  lemma Shared(v: int, i: nat, k: nat, a: int, m: int)
    requires Share(v, i, a, m) && i == k && 0 < m
    ensures Congruent(v * Two(k), a, m)
  {
  }

  lemma Same(a: int, m: int)
    requires 0 < m
    ensures Share(a, 0, a, m)
  {
    assert a * Two(0) == a;
  }

  /** R := R / 2 or (R + M) / 2. */
  method HalveMod(mem: array<word>, R: nat, M: nat, N: nat) returns (ghost odd: bool)
    requires 2 <= N && N % 2 == 0 && R + N <= mem.Length && M + N <= mem.Length && Disjoint(R, N, M, N)
    requires V(mem[..], R, N) < V(mem[..], M, N) && V(mem[..], M, N) % 2 == 1
    modifies mem
    ensures Frame(old(mem[..]), mem[..], R, N)
    ensures 2 * V(mem[..], R, N) == V(old(mem[..]), R, N) + if odd then V(old(mem[..]), M, N) else 0
    ensures V(mem[..], R, N) < V(old(mem[..]), M, N)
  {
    hide V, Sh, Pw;
    ghost var m0 := mem[..];
    Low(m0, R, N);
    ShMono(0, 0, N);
    if mem[R] % 2 == 0 {
      Halve(mem, R, N, 0);
      odd := false;
    } else {
      var carry := Add(mem, R, R, M, N);
      Halve(mem, R, N, carry);
      odd := true;
    }
  }

  lemma Doubled(r': int, r: int, odd: bool, k: nat, a: int, m: int)
    requires 0 < m && 0 < k && 2 * r' == r + (if odd then m else 0) && Share(r, k - 1, a, m)
    ensures Share(r', k, a, m)
  {
    hide Congruent;
    var p := Two(k - 1);
    assert r' * Two(k) == (2 * r') * p;
    Distribute(r, m, p);
    var j := CongruentWitness(r * p, a, m);
    Distribute(j, p, m);
    CongruentBy(r' * Two(k), a, m, if odd then j + p else j);
  }

  /** R := the inverse of A modulo an odd M; zero when there is none. */
  method InverseOdd(mem: array<word>, R: nat, T: nat, A: nat, M: nat, N: nat)
    requires 2 <= N && N % 2 == 0
    requires R + N <= mem.Length && T + 4 * N <= mem.Length && A + N <= mem.Length && M + N <= mem.Length
    requires Disjoint(T, 4 * N, R, N) && Disjoint(T, 4 * N, A, N) && Disjoint(T, 4 * N, M, N) && Disjoint(R, N, M, N)
    requires V(mem[..], A, N) < V(mem[..], M, N) && V(mem[..], M, N) % 2 == 1
    modifies mem
    ensures Frame2(old(mem[..]), mem[..], R, N, T, 4 * N)
    ensures InverseOrZero(V(mem[..], R, N), old(V(mem[..], A, N)), old(V(mem[..], M, N)))
  {
    hide V, Sh, Pw, Two, Congruent;
    ghost var m0 := mem[..];
    ghost var a, m := V(m0, A, N), V(m0, M, N);
    BelowNoLonger(V(mem[..], A, N), V(mem[..], M, N));
    var k, found, z := AlmostInverse(mem, R, T, A, N, M, N);
    ghost var m1 := mem[..];
    Kept2(m0, m1, R, N, T, 4 * N, M, N);
    ghost var r := V(m1, R, N);
    DivideByPower2Mod(mem, R, R, k, M, N);
    ghost var v := V(mem[..], R, N);
    if found {
      Inverted(a, m, r, v, k, z);
    } else {
      MulOne(v);
      NotInverted(a, m, v);
    }
  }

  /** The inverse if there is one, else zero; a residue in any case. */
  ghost predicate InverseOrZero(v: int, a: int, m: int)
    requires 0 < m
  {
    0 <= v < m && if exists x :: IsInverse(x, a, m) then IsInverse(v, a, m) else v == 0
  }

  lemma Inverted(a: int, m: int, r: int, v: int, k: nat, z: int)
    requires 0 < m && m % 2 == 1 && 0 <= v < m && a * r == Two(k) + m * z && Congruent(v * Two(k), r, m)
    ensures InverseOrZero(v, a, m)
  {
    hide Congruent, Two;
    var j := CongruentWitness(v * Two(k), r, m);
    assert (a * v) * Two(k) == a * (v * Two(k)) == a * r + m * (a * j) by { Distribute(r, m * j, a); }
    Distribute(z, a * j, m);
    CongruentBy((a * v) * Two(k), Two(k), m, z + a * j);
    assert 1 * Two(k) == Two(k);
    CancelTwos(a * v, 1, m, k);
    InverseIntro(v, a, m);
  }

  lemma InverseIntro(v: int, a: int, m: int)
    requires 0 < m && Congruent(a * v, 1, m)
    ensures IsInverse(v, a, m)
  {
  }

  /** Without an inverse, or modulo 1, the residue v of 0 / 1 is zero. */
  lemma NotInverted(a: int, m: int, v: int)
    requires 0 < m && 0 <= a < m && 0 <= v < m && (m == 1 || forall x :: !IsInverse(x, a, m))
    requires Congruent(v, 0, m)
    ensures InverseOrZero(v, a, m)
  {
    DivUnique(v, m, 0, v);
    DivUnique(0, m, 0, 0);
    if m == 1 { assert a * v == 0; }
  }

  /** R := 2 * R, or 2 * R - M when that does not stay below M. */
  method DoubleMod(mem: array<word>, R: nat, M: nat, N: nat) returns (ghost wrapped: bool)
    requires 2 <= N && N % 2 == 0 && R + N <= mem.Length && M + N <= mem.Length && Disjoint(R, N, M, N)
    requires V(mem[..], R, N) < V(mem[..], M, N)
    modifies mem
    ensures Frame(old(mem[..]), mem[..], R, N)
    ensures V(mem[..], R, N) == 2 * V(old(mem[..]), R, N) - if wrapped then V(old(mem[..]), M, N) else 0
    ensures V(mem[..], R, N) < V(old(mem[..]), M, N)
  {
    hide V, Sh, Pw, Two, Disjoint;
    ghost var m0 := mem[..];
    ghost var r, m := V(m0, R, N), V(m0, M, N);
    TwoOne();
    var carry := ShiftWordsLeftByBits(mem, R, N, 1);
    ghost var m1 := mem[..];
    Kept(m0, m1, R, N, M, N);
    PwOne(N);
    ShMono(0, 0, N);
    var c := Compare(mem, R, M, N);
    wrapped := carry != 0 || c >= 0;
    if carry != 0 || c >= 0 {
      var borrow := Subtract(mem, R, R, M, N);
      ShAdd(1, 1, N);
    }
  }

  /** R := A * 2^k modulo M, one doubling at a time. */
  method MultiplyByPower2Mod(mem: array<word>, R: nat, A: nat, k: nat, M: nat, N: nat)
    requires 2 <= N && N % 2 == 0
    requires R + N <= mem.Length && A + N <= mem.Length && M + N <= mem.Length
    requires R == A || Disjoint(R, N, A, N)
    requires Disjoint(R, N, M, N) && V(mem[..], A, N) < V(mem[..], M, N)
    modifies mem
    ensures Frame(old(mem[..]), mem[..], R, N)
    ensures V(mem[..], R, N) < V(old(mem[..]), M, N)
    ensures Congruent(V(mem[..], R, N), V(old(mem[..]), A, N) * Two(k), V(old(mem[..]), M, N))
  {
    hide V, Sh, Pw, Two, Congruent;
    ghost var m0 := mem[..];
    ghost var a, m := V(m0, A, N), V(m0, M, N);
    CopyWords(mem, R, A, N);
    Unscaled(a, m);
    hide Scaled;
    for i := 0 to k
      invariant Frame(m0, mem[..], R, N)
      invariant V(mem[..], R, N) < m
      invariant Scaled(V(mem[..], R, N), i, a, m)
    {
      Kept(m0, mem[..], R, N, M, N);
      ghost var r := V(mem[..], R, N);
      ghost var wrapped := DoubleMod(mem, R, M, N);
      ScaledNext(V(mem[..], R, N), r, wrapped, i, a, m);
    }
    ScaledIs(V(mem[..], R, N), k, a, m);
  }

  /** v is a * 2^k modulo m. */
  ghost predicate Scaled(v: int, k: nat, a: int, m: int) {
    0 < m && Congruent(v, a * Two(k), m)
  }

  lemma Unscaled(a: int, m: int)
    requires 0 < m
    ensures Scaled(a, 0, a, m)
  {
    assert a * Two(0) == a;
  }

  lemma ScaledIs(v: int, k: nat, a: int, m: int)
    requires Scaled(v, k, a, m) && 0 < m
    ensures Congruent(v, a * Two(k), m)
  {
  }

  lemma ScaledNext(r': int, r: int, wrapped: bool, k: nat, a: int, m: int)
    requires 0 < m && r' == 2 * r - (if wrapped then m else 0) && Scaled(r, k, a, m)
    ensures Scaled(r', k + 1, a, m)
  {
    hide Congruent;
    var p := Two(k);
    assert a * Two(k + 1) == 2 * (a * p);
    var j := CongruentWitness(r, a * p, m);
    CongruentBy(r', a * Two(k + 1), m, if wrapped then 2 * j - 1 else 2 * j);
  }

  /** From A * R = 2^k modulo M to A * V = 2^e, in whichever direction k has to
      be corrected. */
  lemma Corrected(a: int, m: int, r: int, v: int, k: nat, z: int, e: nat)
    requires 0 < m && m % 2 == 1 && a * r == Two(k) + m * z
    requires if k > e then Congruent(v * Two(k - e), r, m) else Congruent(v, r * Two(e - k), m)
    ensures Congruent(a * v, Two(e), m)
  {
    hide Congruent, Two;
    if k > e {
      var p := Two(k - e);
      var j := CongruentWitness(v * p, r, m);
      Regroup(a, v, p);
      Distribute(r, m * j, a);
      assert a * (m * j) == m * (a * j);
      Distribute(z, a * j, m);
      TwoAdd(e, k - e);
      CongruentBy((a * v) * p, Two(e) * p, m, z + a * j);
      CancelTwos(a * v, Two(e), m, k - e);
    } else {
      var p := Two(e - k);
      var j := CongruentWitness(v, r * p, m);
      Distribute(r * p, m * j, a);
      assert a * (m * j) == m * (a * j);
      Regroup(a, r, p);
      Distribute(Two(k), m * z, p);
      assert (m * z) * p == m * (z * p);
      Distribute(z * p, a * j, m);
      TwoAdd(k, e - k);
      CongruentBy(a * v, Two(e), m, z * p + a * j);
    }
  }
}
