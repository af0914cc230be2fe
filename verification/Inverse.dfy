/** Inverses modulo powers of two by Newton iteration. */
module Inverse {
  import opened Arithmetic
  import opened Words
  import opened LowLevel
  import opened Karatsuba
  import opened Shifts
  import opened Halves
  import opened HighHalf

  lemma OddSquare(A: word, r: word)
    requires A % 2 == 1 && r == A % 8
    ensures (r * A) % 8 == 1
  {
    DivParts(A, 8);
    var q := A / 8;
    assert r == 1 || r == 3 || r == 5 || r == 7;
    var c := if r == 1 then 0 else if r == 3 then 1 else if r == 5 then 3 else 6;
    Distribute(8 * q, r, r);
    assert r * r == 8 * c + 1;
    assert (8 * q) * r == 8 * (q * r);
    DivUnique(r * A, 8, q * r + c, 1);
  }

  /** One Newton step squares the error. */
  lemma NewtonError(r: int, a: int, e: int)
    requires r * a == 1 + e
    ensures (r * (2 - r * a)) * a == 1 - e * e
  {
    var p := r * a;
    assert (r * (2 - p)) * a == (2 - p) * p;
    assert (2 - p) * p == (1 - e) * (1 + e);
    assert (1 - e) * (1 + e) == 1 - e * e;
  }

  /** The number of correct bits after a pass, never more than a word. */
  function Bits(i: nat): nat {
    if i < WORD_BITS then i else WORD_BITS
  }

  /** Doubling the correct bits keeps the error a multiple of the new modulus. */
  lemma BitsDouble(i: nat) returns (c: int, d: int)
    requires i < WORD_BITS
    ensures Two(i) * Two(i) == c * Two(Bits(2 * i)) && W == d * Two(Bits(2 * i))
  {
    hide Two;
    var b := Bits(2 * i);
    TwoAdd(i, i);
    TwoAdd(2 * i - b, b);
    TwoAdd(WORD_BITS - b, b);
    TwoWord();
    c, d := Two(2 * i - b), Two(WORD_BITS - b);
  }

  lemma NewtonStep(r: int, a: int, k: int, i: nat, q: int) returns (k': int)
    requires i < WORD_BITS && r * a == 1 + k * Two(i)
    ensures (r * (2 - r * a) - W * q) * a == 1 + k' * Two(Bits(2 * i))
  {
    hide Two;
    var m := Two(Bits(2 * i));
    var c, d := BitsDouble(i);
    NewtonError(r, a, k * Two(i));
    k' := -(k * k * c) - q * a * d;
    assert (k * Two(i)) * (k * Two(i)) == (k * k) * (c * m) by { Regroup(k, Two(i)); }
    assert (W * q) * a == (q * a) * (d * m);
    FactorOut(k * k, c, q * a, d, m);
    Distribute(r * (2 - r * a), W * q, a);
  }

  lemma Regroup(k: int, t: int)
    ensures (k * t) * (k * t) == (k * k) * (t * t)
  {
    assert (k * t) * (k * t) == k * (t * (k * t)) == k * (k * (t * t));
  }

  lemma FactorOut(x: int, c: int, y: int, d: int, m: int)
    ensures -(x * (c * m)) - y * (d * m) == (-(x * c) - y * d) * m
  {
    assert x * (c * m) == (x * c) * m && y * (d * m) == (y * d) * m;
    Distribute(-(x * c), y * d, m);
  }

  /** The inverse of an odd word modulo W. */
  method AtomicInverseModPower2(A: word) returns (R: word)
    requires A % 2 == 1
    ensures ((R as int) * A) % W == 1
  {
    hide Two;
    R := A % 8;
    OddSquare(A, R);
    ghost var k: int := ((R as int) * A) / 8;
    var i: nat := 3;
    assert Two(3) == 8 by { TwoSmall(); }
    while i < WORD_BITS
      invariant 0 < i && (R as int) * A == 1 + k * Two(Bits(i))
    {
      var next := (R as int) * (2 - (R as int) * A);
      DivParts(next, W);
      k := NewtonStep(R, A, k, i, next / W);
      R := next % W;
      i := i * 2;
    }
    TwoWord();
  }

  lemma TwoSmall()
    ensures Two(3) == 8 && Two(1) == 2
  {
  }

  /** Work space the recursion touches. Its comment promises 3N/2 words, which is
      one word short for N = 2. */
  function WorkSize(N: nat): nat {
    if N == 2 then 4 else 3 * N / 2
  }

  /** The promised 3N/2 words are enough exactly from four words on. */
  lemma WorkSpace(N: nat)
    requires IsSize(N)
    ensures 2 * WorkSize(N) <= 3 * N <==> N > 2
  {
    SizeEven(N);
  }

  /** R := the inverse of A modulo W^N, for odd A. */
  method RecursiveInverseModPower2(mem: array<word>, R: nat, T: nat, A: nat, N: nat)
    requires IsSize(N) && Ranges(mem.Length, R, N, T, WorkSize(N), A, A, N)
    requires mem[A] % 2 == 1
    modifies mem
    ensures Frame2(old(mem[..]), mem[..], R, N, T, WorkSize(N))
    ensures OneLow(V(mem[..], R, N), V(old(mem[..]), A, N), N)
    decreases N
  {
    hide V, Sh, LowPart;
    SizeEven(N);
    if N == 2 {
      InverseOfTwo(mem, R, T, A);
    } else {
      var N2 := N / 2;
      ghost var m0 := mem[..];
      RecursiveInverseModPower2(mem, R, T, A, N2);
      LiftInverse(mem, R, T, A, N2, m0);
    }
  }

  /** x is an inverse of a modulo W^n. */
  ghost predicate OneLow(x: int, a: int, n: nat) {
    LowPart(x * a, n) == 1
  }

  /** From an inverse R0 modulo W^h to one modulo W^2h. */
  method LiftInverse(mem: array<word>, R: nat, T: nat, A: nat, h: nat, ghost m0: seq<word>)
    requires 0 < h && IsSize(h) && h % 2 == 0 && Ranges(mem.Length, R, 2 * h, T, 3 * h, A, A, 2 * h)
    requires Frame2(m0, mem[..], R, h, T, WorkSize(h)) && WorkSize(h) <= 3 * h
    requires OneLow(V(mem[..], R, h), V(m0, A, h), h)
    modifies mem
    ensures Frame2(m0, mem[..], R, 2 * h, T, 3 * h)
    ensures OneLow(V(mem[..], R, 2 * h), V(m0, A, 2 * h), 2 * h)
  {
    hide *;
    ghost var m1 := mem[..];
    LiftRanges(mem.Length, R, T, A, h);
    KeptHalves(m0, m1, R, h, T, WorkSize(h), A, h);
    ghost var r0, a0, a1 := V(m1, R, h), V(m0, A, h), V(m0, A + h, h);
    ErrorDigit(mem, R, T, A, h, r0, a0, a1);
    ghost var m3, n := mem[..], V(mem[..], T, h);
    NextDigit(mem, R, T, A, h, r0, n);
    ghost var m4 := mem[..];
    ChainLift(m0, m1, m3, m4, R, T, h);
    Split(m4, R, h, h);
    Split(m0, A, h, h);
    LiftMath(h, r0, V(m4, R + h, h), a0, a1, n);
  }

  /** n is the negated upper digit of r0 times the number with digits a0, a1. */
  ghost predicate IsErrorDigit(h: nat, r0: int, a0: int, a1: int, n: int) {
    exists top: int, k: int :: r0 * a0 == 1 + Sh(top, h) && n == -(top + r0 * a1) + Sh(k, h)
  }

  /** The error R0 * A leaves in its upper half goes to T0. */
  method ErrorDigit(mem: array<word>, R: nat, T: nat, A: nat, h: nat, ghost r0: int, ghost a0: int, ghost a1: int)
    requires 0 < h && IsSize(h) && h % 2 == 0 && Ranges(mem.Length, R, 2 * h, T, 3 * h, A, A, 2 * h)
        && WorkSize(h) <= 3 * h
    requires A + 2 * h <= mem.Length && R + h <= mem.Length && T + h <= mem.Length
    requires r0 == V(mem[..], R, h) && a0 == V(mem[..], A, h) && a1 == V(mem[..], A + h, h)
    requires OneLow(r0, a0, h)
    modifies mem
    ensures Frame2(old(mem[..]), mem[..], R + h, h, T, 3 * h) && V(mem[..], R, h) == r0
    ensures IsErrorDigit(h, r0, a0, a1, V(mem[..], T, h))
  {
    hide *;
    ghost var m1 := mem[..];
    LiftRanges(mem.Length, R, T, A, h);
    ghost var top := HighOfProduct(mem, R, T, A, h, r0, a0);
    ghost var m2 := mem[..];
    KeptHalves(m1, m2, R + h, h, T, 3 * h, A, h);
    Kept2(m1, m2, R + h, h, T, 3 * h, R, h);
    ghost var k := NegatedError(mem, R, T, A, h, r0, a1, top);
    Kept2(m2, mem[..], T, h, T + h, h, R, h);
    ChainError(m1, m2, mem[..], R, T, h);
    ErrorWitness(h, r0, a0, a1, V(mem[..], T, h), top, k);
  }

  lemma ErrorWitness(h: nat, r0: int, a0: int, a1: int, n: int, top: int, k: int)
    requires r0 * a0 == 1 + Sh(top, h) && n == -(top + r0 * a1) + Sh(k, h)
    ensures IsErrorDigit(h, r0, a0, a1, n)
  {
    hide Sh;
  }

  lemma ChainError(m1: seq<word>, m2: seq<word>, m3: seq<word>, R: nat, T: nat, h: nat)
    requires Frame2(m1, m2, R + h, h, T, 3 * h) && Frame2(m2, m3, T, h, T + h, h)
    ensures Frame2(m1, m3, R + h, h, T, 3 * h)
  {
  }

  ghost predicate IsNextDigit(r1: int, r0: int, n: int, h: nat) {
    r1 == LowPart(r0 * n, h)
  }

  /** R1 := R0 * T0. */
  method NextDigit(mem: array<word>, R: nat, T: nat, A: nat, h: nat, ghost r0: int, ghost n: int)
    requires IsSize(h) && Ranges(mem.Length, R, 2 * h, T, 3 * h, A, A, 2 * h) && WorkSize(h) <= 3 * h
    requires R + 2 * h <= mem.Length && T + h <= mem.Length
    requires r0 == V(mem[..], R, h) && n == V(mem[..], T, h)
    modifies mem
    ensures Frame2(old(mem[..]), mem[..], R + h, h, T + h, h) && V(mem[..], R, h) == r0
    ensures IsNextDigit(V(mem[..], R + h, h), r0, n, h)
  {
    hide V, Sh, LowPart, Disjoint, Ranges, Frame2, IsSize, WorkSize;
    ghost var m3 := mem[..];
    LiftRanges(mem.Length, R, T, A, h);
    RecursiveMultiplyBottom(mem, R + h, T + h, R, T, h);
    Kept2(m3, mem[..], R + h, h, T + h, h, R, h);
  }

  lemma LiftRanges(len: nat, R: nat, T: nat, A: nat, h: nat)
    requires Ranges(len, R, 2 * h, T, 3 * h, A, A, 2 * h) && WorkSize(h) <= 3 * h
    ensures A + 2 * h <= len && R + 2 * h <= len && T + 3 * h <= len
    ensures Disjoint(R, h, A, 2 * h) && Disjoint(T, WorkSize(h), A, 2 * h)
    ensures Disjoint(R + h, h, A, 2 * h) && Disjoint(T, 3 * h, A, 2 * h)
    ensures Disjoint(R + h, h, R, h) && Disjoint(T, 3 * h, R, h) && Disjoint(T, 3 * h, R + h, h)
    ensures Disjoint(T, h, R, h) && Disjoint(T + h, h, R, h) && Disjoint(T + h, 2 * h, R, h)
    ensures Disjoint(T, h, R + h, h) && Disjoint(T + h, h, R + h, h)
    ensures Disjoint(T, h, A, 2 * h) && Disjoint(T + h, 2 * h, T, h)
    ensures Ranges(len, R + h, h, T + h, 2 * h, R, A, h) && Disjoint(R + h, h, T, h)
    ensures Ranges(len, T, h, T + h, h, R, A + h, h)
    ensures Ranges(len, R + h, h, T + h, h, R, T, h)
  {
  }

  lemma KeptHalves(m: seq<word>, m': seq<word>, p: nat, n: nat, q: nat, k: nat, A: nat, h: nat)
    requires Frame2(m, m', p, n, q, k) && A + 2 * h <= |m'|
    requires Disjoint(p, n, A, 2 * h) && Disjoint(q, k, A, 2 * h)
    ensures |m'| == |m|
    ensures V(m', A, h) == V(m, A, h) && V(m', A + h, h) == V(m, A + h, h)
  {
    hide V;
    SameV(m, m', A, h);
    SameV(m, m', A + h, h);
  }

  lemma ChainLift(m0: seq<word>, m1: seq<word>, m3: seq<word>, m4: seq<word>, R: nat, T: nat, h: nat)
    requires Frame2(m0, m1, R, h, T, WorkSize(h)) && WorkSize(h) <= 3 * h
    requires Frame2(m1, m3, R + h, h, T, 3 * h)
    requires Frame2(m3, m4, R + h, h, T + h, h)
    ensures Frame2(m0, m4, R, 2 * h, T, 3 * h)
  {
  }

  /** R1 := (R0 * A0 - 1) / W^h, the high half next to the low half 1. */
  method HighOfProduct(mem: array<word>, R: nat, T: nat, A: nat, h: nat, ghost r0: int, ghost a0: int)
    returns (ghost top: int)
    requires IsSize(h) && 0 < h && Ranges(mem.Length, R, 2 * h, T, 3 * h, A, A, 2 * h)
    requires r0 == V(mem[..], R, h) && a0 == V(mem[..], A, h) && OneLow(r0, a0, h)
    modifies mem
    ensures Frame2(old(mem[..]), mem[..], R + h, h, T, 3 * h)
    ensures V(mem[..], R + h, h) == top && r0 * a0 == 1 + Sh(top, h)
  {
    hide V, Sh, LowPart, HighPart, Disjoint, Ranges, IsSize;
    ghost var m0 := mem[..];
    HighRanges(mem.Length, R, T, A, h);
    mem[T] := 1;
    SetWords(mem, T + 1, 0, h - 1);
    ghost var m1 := mem[..];
    Low(m1, T, h);
    ZeroV(m1, T + 1, h - 1);
    Kept(m0, m1, T, h, R, h);
    Kept(m0, m1, T, h, A, h);
    RecursiveMultiplyTop(mem, R + h, T + h, T, R, A, h);
    top := HighPart(r0 * a0, h);
    Parts(r0 * a0, h);
  }

  lemma HighRanges(len: nat, R: nat, T: nat, A: nat, h: nat)
    requires Ranges(len, R, 2 * h, T, 3 * h, A, A, 2 * h)
    ensures A + 2 * h <= len && R + 2 * h <= len && T + 3 * h <= len
    ensures Ranges(len, R + h, h, T + h, 2 * h, R, A, h)
    ensures Disjoint(R + h, h, T, h) && Disjoint(T + h, 2 * h, T, h)
    ensures Disjoint(T, h, R, h) && Disjoint(T, h, A, h)
  {
  }

  /** T0 := -(R1 + R0 * A1) modulo W^h. */
  method NegatedError(mem: array<word>, R: nat, T: nat, A: nat, h: nat, ghost r0: int, ghost a1: int, ghost top: int)
    returns (ghost k: int)
    requires IsSize(h) && 0 < h && h % 2 == 0 && R + 2 * h <= mem.Length && T + 2 * h <= mem.Length
        && A + 2 * h <= mem.Length
    requires Ranges(mem.Length, T, h, T + h, h, R, A + h, h)
    requires Disjoint(T, h, R + h, h) && Disjoint(T + h, h, R + h, h)
    requires r0 == V(mem[..], R, h) && a1 == V(mem[..], A + h, h) && top == V(mem[..], R + h, h)
    modifies mem
    ensures Frame2(old(mem[..]), mem[..], T, h, T + h, h)
    ensures V(mem[..], T, h) == -(top + r0 * a1) + Sh(k, h)
  {
    hide V, Sh, LowPart, Ranges, IsSize;
    ghost var m0 := mem[..];
    RecursiveMultiplyBottom(mem, T, T + h, R, A + h, h);
    ghost var m1 := mem[..];
    Kept2(m0, m1, T, h, T + h, h, R + h, h);
    var carry := Add(mem, T, R + h, T, h);
    ghost var s := V(mem[..], T, h);
    TwosComplement(mem, T, h);
    ghost var u := r0 * a1;
    Parts(u, h);
    ghost var z := if s == 0 then 0 else 1;
    ghost var hp := HighPart(u, h) + carry;
    ShAdd(HighPart(u, h), carry, h);
    Negated(s, V(mem[..], T, h), hp, z, h);
    k := hp + z;
  }

  /** r1 * a0 == n modulo W^h, because r0 * a0 == 1: the middle digit vanishes. */
  lemma MiddleVanishes(h: nat, r0: int, r1: int, a0: int, u: int, top: int, k: int, n: int, j: int)
    requires r0 * a0 == 1 + Sh(top, h) && n == -(top + u) + Sh(k, h)
    requires r0 * n == r1 + Sh(j, h)
    ensures top + u + r1 * a0 == Sh(k + top * n - j * a0, h)
  {
    hide Sh;
    Substituted(r0, a0, n, r1, Sh(top, h), Sh(j, h));
    ShMul(top, n, h);
    ShMul(j, a0, h);
    ShAdd(top * n, j * a0, h);
    ShAdd(k, top * n - j * a0, h);
  }

  lemma LiftMath(h: nat, r0: int, r1: int, a0: int, a1: int, n: int)
    requires IsErrorDigit(h, r0, a0, a1, n) && IsNextDigit(r1, r0, n, h) && 0 < h
    ensures OneLow(r0 + Sh(r1, h), a0 + Sh(a1, h), 2 * h)
  {
    hide Sh, LowPart, IsErrorDigit;
    var top, k := TheError(h, r0, a0, a1, n);
    var p, q, r := r0 * a1, r1 * a0, r1 * a1;
    var e := MiddleDigit(h, r0, r1, a0, p, top, k, n);
    TwoHalves(r0, r1, a0, a1, h);
    OneShifted(h, top, p, q, r, e, (r0 + Sh(r1, h)) * (a0 + Sh(a1, h)));
  }

  lemma TheError(h: nat, r0: int, a0: int, a1: int, n: int) returns (top: int, k: int)
    requires IsErrorDigit(h, r0, a0, a1, n)
    ensures r0 * a0 == 1 + Sh(top, h) && n == -(top + r0 * a1) + Sh(k, h)
  {
    hide Sh;
    top, k :| r0 * a0 == 1 + Sh(top, h) && n == -(top + r0 * a1) + Sh(k, h);
  }

  lemma MiddleDigit(h: nat, r0: int, r1: int, a0: int, u: int, top: int, k: int, n: int) returns (e: int)
    requires r0 * a0 == 1 + Sh(top, h) && n == -(top + u) + Sh(k, h)
    requires r1 == LowPart(r0 * n, h)
    ensures top + u + r1 * a0 == Sh(e, h)
  {
    hide *;
    Parts(r0 * n, h);
    var j := HighPart(r0 * n, h);
    MiddleVanishes(h, r0, r1, a0, u, top, k, n, j);
    e := k + top * n - j * a0;
  }

  lemma OneShifted(h: nat, top: int, p: int, q: int, r: int, e: int, x: int)
    requires 0 < h && top + p + q == Sh(e, h)
    requires x == 1 + Sh(top, h) + Sh(p + q, h) + Sh(r, 2 * h)
    ensures LowPart(x, 2 * h) == 1
  {
    hide Sh, LowPart, Pw;
    ShAdd(top, p + q, h);
    ShSh(e, h, h);
    ShAdd(e, r, 2 * h);
    OneBelow(2 * h);
    PartsUnique(x, 2 * h, 1, e + r);
  }

  lemma Substituted(r0: int, a0: int, n: int, r1: int, t: int, u: int)
    requires r0 * a0 == 1 + t && r0 * n == r1 + u
    ensures r1 * a0 == n + t * n - u * a0
  {
    assert (r0 * n) * a0 == (r0 * a0) * n;
    Distribute(r1, u, a0);
    Distribute(1, t, n);
  }

  lemma OneBelow(n: nat)
    requires 0 < n
    ensures 1 < Pw(n)
  {
    ShMono(0, 1, n - 1);
  }

  /** The base case: a single word is inverted, then one Newton step on two. */
  method InverseOfTwo(mem: array<word>, R: nat, T: nat, A: nat)
    requires Ranges(mem.Length, R, 2, T, 4, A, A, 2)
    requires mem[A] % 2 == 1
    modifies mem
    ensures Frame2(old(mem[..]), mem[..], R, 2, T, 4)
    ensures LowPart(V(mem[..], R, 2) * V(old(mem[..]), A, 2), 2) == 1
    ensures mem[T] * old(mem[A]) % W == 1
    ensures V(mem[..], T + 2, 2) == LowPart(2 - mem[T] * V(old(mem[..]), A, 2), 2)
  {
    hide V, Sh, LowPart;
    ghost var m0 := mem[..];
    var t0 := AtomicInverseModPower2(mem[A]);
    mem[T] := t0;
    mem[T + 1] := 0;
    ghost var m1 := mem[..];
    V2(m1, T);
    V2(m0, A);
    SameV(m0, m1, A, 2);
    ghost var a, t := V(m0, A, 2), V(m1, T, 2);
    Multiply2Bottom(mem, T + 2, T, A);
    ghost var m2 := mem[..];
    TwosComplement(mem, T + 2, 2);
    ghost var m3 := mem[..];
    var carry := Increment(mem, T + 2, 2, 2);
    ghost var m4 := mem[..];
    SameV(m1, m4, T, 2);
    ghost var c := V(m4, T + 2, 2);
    Multiply2Bottom(mem, R, T, T + 2);
    SameV(m4, mem[..], T + 2, 2);
    SecondPair(t0, V(m0, A, 2), V(m2, T + 2, 2), V(m3, T + 2, 2), carry, c);
    TwoWords(m0[A], m0[A + 1], t0, V(m2, T + 2, 2), V(m3, T + 2, 2), carry, c, V(mem[..], R, 2));
  }

  /** The two words above t hold 2 - t * a. */
  lemma SecondPair(t: int, a: int, v: int, n: int, carry: int, c: int)
    requires v == LowPart(t * a, 2) && n == if v == 0 then 0 else Pw(2) - v
    requires c + Sh(carry, 2) == n + 2 && 0 <= c < Pw(2)
    ensures c == LowPart(2 - t * a, 2)
  {
    hide Sh, LowPart, Pw;
    var h, z := HighPart(t * a, 2), if v == 0 then 0 else 1;
    Parts(t * a, 2);
    Negated(v, n, h, z, 2);
    ShAdd(carry, h + z, 2);
    PartsUnique(2 - t * a, 2, c, carry - (h + z));
  }

  /** So for A = 1 + W the fourth word of the work space becomes W - 1, whatever it
      was. */
  lemma FourthWordUsed(t: word, m: seq<word>, T: nat)
    requires T + 4 <= |m| && t * 1 % W == 1 && V(m, T + 2, 2) == LowPart(2 - t * (1 + W), 2)
    ensures m[T + 3] == W - 1
  {
    hide V, Sh, Pw, LowPart;
    V2(m, T + 2);
    DivUnique(t, W, 0, t);
    PwTwoWords();
    ShMinusOne();
    PartsUnique(1 - W, 2, W * W + 1 - W, -1);
  }

  lemma ShMinusOne()
    ensures Sh(-1, 2) == -(W * W)
  {
    assert Sh(-1, 2) == W * (W * -1);
  }

  /** t * a = 1 + kW, so t * (2 - t*a) * a = 1 - (kW)^2. */
  lemma TwoWords(a0: word, a1: word, t: word, v: int, n: int, carry: word, c: int, r: int)
    requires (t * a0) % W == 1
    requires v == LowPart(t * (a0 + W * a1), 2)
    requires n == if v == 0 then 0 else Pw(2) - v
    requires c + Sh(carry, 2) == n + 2
    requires r == LowPart(t * c, 2)
    ensures LowPart(r * (a0 + W * a1), 2) == 1
  {
    hide Sh, LowPart, Pw;
    var a := a0 + W * a1;
    var p, q := t * a, t * c;
    Parts(p, 2);
    Parts(q, 2);
    var k := FirstWord(t, a0, a1);
    var z := if v == 0 then 0 else 1;
    Negated(v, n, HighPart(p, 2), z, 2);
    ShAdd(HighPart(p, 2) + z, carry, 2);
    TwoWordsError(t, a, c, k, HighPart(p, 2) + z - carry, HighPart(q, 2), r);
  }

  /** What TwosComplement leaves, as a negation modulo W^h. */
  lemma Negated(v: int, n: int, hp: int, z: int, h: nat)
    requires n == if v == 0 then 0 else Pw(h) - v
    requires z == if v == 0 then 0 else 1
    ensures n == -(v + Sh(hp, h)) + Sh(hp + z, h)
  {
    hide Sh, Pw;
    ShAdd(hp, z, h);
    PwOne(h);
    ShMono(0, 0, h);
  }

  lemma FirstWord(t: word, a0: word, a1: word) returns (k: int)
    requires (t * a0) % W == 1
    ensures t * (a0 + W * a1) == 1 + W * k
  {
    k := (t * a0) / W + t * a1;
    Distribute(a0, W * a1, t);
    assert t * (W * a1) == W * (t * a1);
  }

  lemma TwoWordsError(t: int, a: int, c: int, k: int, j: int, hr: int, r: int)
    requires t * a == 1 + W * k && c == 2 - t * a + Sh(j, 2)
    requires t * c == r + Sh(hr, 2)
    ensures LowPart(r * a, 2) == 1
  {
    hide Sh, LowPart, Pw;
    var w := W * k;
    NewtonProduct(t, a, c, w, Sh(j, 2), Sh(hr, 2), r);
    SquareShift(k);
    ShMul(j, 1 + w, 2);
    ShMul(hr, a, 2);
    ErrorShift(k * k, j * (1 + w), hr * a);
    PwTwoWords();
    PartsUnique(r * a, 2, 1, -(k * k) + j * (1 + w) - hr * a);
  }

  lemma ErrorShift(x: int, y: int, z: int)
    ensures Sh(-x + y - z, 2) == -Sh(x, 2) + Sh(y, 2) - Sh(z, 2)
  {
    ShAdd(-x + y, z, 2);
    ShAdd(y, x, 2);
  }

  lemma NewtonProduct(t: int, a: int, c: int, w: int, s: int, u: int, r: int)
    requires t * a == 1 + w && c == 2 - t * a + s && t * c == r + u
    ensures r * a == 1 - w * w + s * (1 + w) - u * a
  {
    assert (t * c) * a == (t * a) * c;
    Distribute(r, u, a);
    assert (1 + w) * (1 - w + s) == 1 - w * w + s * (1 + w);
  }

  lemma SquareShift(k: int)
    ensures (W * k) * (W * k) == Sh(k * k, 2)
  {
    assert Sh(k * k, 2) == W * (W * (k * k));
    assert (W * k) * (W * k) == W * (k * (W * k)) == W * (W * (k * k));
  }
}
