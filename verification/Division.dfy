/** Long division, two quotient words at a time. */
module Division {
  import opened Arithmetic
  import opened Words
  import opened LowLevel
  import opened Multiply

  /** Block j of T: two divisor words from 4j times the two quotient words. */
  ghost predicate Block(m: seq<word>, T: nat, B: nat, q: int, j: nat)
    requires T + 4 * j + 4 <= |m| && B + 4 * j + 2 <= |m|
  {
    V(m, T + 4 * j, 4) == q * V(m, B + 4 * j, 2)
  }

  /** The blocks from number `from` on, before number k. */
  ghost predicate BlocksFrom(m: seq<word>, T: nat, B: nat, q: int, from: nat, k: nat)
    requires T + 4 * k <= |m| && B + 4 * k <= |m| + 2
  {
    forall j: nat :: from <= j < k ==> Block(m, T, B, q, j)
  }

  lemma BlocksKept(m: seq<word>, m': seq<word>, T: nat, B: nat, q: int, from: nat, k: nat, p: nat, n: nat)
    requires T + 4 * k <= |m| && B + 4 * k <= |m| + 2 && Frame(m, m', p, n)
    requires forall j: nat :: from <= j < k ==> Disjoint(p, n, T + 4 * j, 4) && Disjoint(p, n, B + 4 * j, 2)
    requires BlocksFrom(m, T, B, q, from, k)
    ensures BlocksFrom(m', T, B, q, from, k)
  {
    hide V;
    forall j: nat | from <= j < k
      ensures Block(m', T, B, q, j)
    {
      assert Block(m, T, B, q, j);
      Kept(m, m', p, n, T + 4 * j, 4);
      Kept(m, m', p, n, B + 4 * j, 2);
    }
  }

  /** Every second pair of divisor words times Q, side by side. */
  method EvenBlocks(mem: array<word>, T: nat, Q: nat, B: nat, N: nat)
    requires N % 2 == 0 && T + N + 2 <= mem.Length && B + N <= mem.Length && Q + 2 <= mem.Length
    requires Disjoint(T, N + 2, B, N) && Disjoint(T, N + 2, Q, 2)
    modifies mem
    ensures Frame(old(mem[..]), mem[..], T, 4 * ((N + 2) / 4))
    ensures BlocksFrom(mem[..], T, B, V(old(mem[..]), Q, 2), 0, (N + 2) / 4)
  {
    hide V, Block, BlocksFrom;
    ghost var m0 := mem[..];
    ghost var q := V(m0, Q, 2);
    var i: nat := 0;
    NoBlocks(m0, T, B, q);
    while i < N
      invariant i % 4 == 0 && i <= N + 2
      invariant Frame(m0, mem[..], T, i)
      invariant BlocksFrom(mem[..], T, B, q, 0, i / 4)
    {
      ghost var m1 := mem[..];
      Multiply2(mem, T + i, Q, B + i);
      ghost var m2 := mem[..];
      BlocksKept(m1, m2, T, B, q, 0, i / 4, T + i, 4);
      SameV(m0, m1, Q, 2);
      Kept(m1, m2, T + i, 4, B + i, 2);
      NextBlock(m2, T, B, q, i / 4);
      i := i + 4;
    }
  }

  lemma NoBlocks(m: seq<word>, T: nat, B: nat, q: int)
    requires T <= |m| && B <= |m| + 2
    ensures BlocksFrom(m, T, B, q, 0, 0)
  {
  }

  lemma NextBlock(m: seq<word>, T: nat, B: nat, q: int, k: nat)
    requires T + 4 * k + 4 <= |m| && B + 4 * k + 2 <= |m| && BlocksFrom(m, T, B, q, 0, k)
    requires V(m, T + 4 * k, 4) == q * V(m, B + 4 * k, 2)
    ensures BlocksFrom(m, T, B, q, 0, k + 1)
  {
    hide V;
    assert Block(m, T, B, q, k);
  }

  /** {X1, X0} += 1, dropping a final carry. */
  method BumpPair(mem: array<word>, p: nat) returns (ghost lost: word)
    requires p + 2 <= mem.Length
    modifies mem
    ensures Frame(old(mem[..]), mem[..], p, 2) && lost <= 1
    ensures V(mem[..], p, 2) + Sh(lost, 2) == V(old(mem[..]), p, 2) + 1
  {
    hide V, Sh;
    ghost var m0 := mem[..];
    mem[p] := (mem[p] + 1) % W;
    mem[p + 1] := (mem[p + 1] + (if mem[p] == 0 then 1 else 0)) % W;
    V2(m0, p);
    V2(mem[..], p);
    lost := if mem[p] == 0 && mem[p + 1] == 0 then 1 else 0;
    PwOne(2);
    ShMono(0, 0, 2);
  }

  /** The blocks in between, added on top. T holds Q times the divisor words
      below i, and above them an untouched even block; the high half of such a
      block is never all ones, so the carry put into it stops there. */
  method OddBlock(mem: array<word>, T: nat, Q: nat, B: nat, i: nat, ghost q: int)
    requires T + i + 6 <= mem.Length && B + i + 4 <= mem.Length && Q + 2 <= mem.Length
    requires Disjoint(T, i + 6, B, i + 4) && Disjoint(T, i + 6, Q, 2)
    requires q == V(mem[..], Q, 2)
    requires V(mem[..], T, i + 2) == q * V(mem[..], B, i)
    requires V(mem[..], T + i + 2, 4) == q * V(mem[..], B + i + 2, 2)
    modifies mem
    ensures Frame(old(mem[..]), mem[..], T + i, 6)
    ensures V(mem[..], T, i + 6) == q * V(mem[..], B, i + 4)
  {
    hide V, Sh, Pw;
    ghost var m0 := mem[..];
    ghost var b0, b1, b2 := V(m0, B, i), V(m0, B + i, 2), V(m0, B + i + 2, 2);
    var carry := Multiply2Add(mem, T + i, Q, B + i);
    ghost var m1 := mem[..];
    WindowDelta(m0, m1, T, i, 4, i + 6);
    ghost var lost := 0;
    ShMono(0, 0, 2);
    if carry != 0 {
      lost := BumpPair(mem, T + i + 4);
    }
    ghost var m2 := mem[..];
    WindowDelta(m1, m2, T, i + 4, 2, i + 6);
    SameV(m0, m2, B, i + 4);
    Split(m0, B, i, 4);
    Split(m0, B + i, 2, 2);
    Split(m0, T, i + 2, 4);
    CarryStops(i, q, b0, b1, b2, V(m0, B, i + 4), V(m0, T, i + 6), carry, lost,
               V(m1, T + i, 4) - V(m0, T + i, 4), V(m2, T + i + 4, 2) - V(m1, T + i + 4, 2), V(m2, T, i + 6));
  }

  lemma CarryStops(i: nat, q: int, b0: int, b1: int, b2: int, b: int, t: int, carry: word, lost: word,
                   d1: int, d2: int, t': int)
    requires b == b0 + Sh(b1 + Sh(b2, 2), i) && 0 <= b < Pw(i + 4) && 0 <= q < Pw(2)
    requires t == q * b0 + Sh(q * b2, i + 2)
    requires carry <= 1 && lost <= 1
    requires d1 == q * b1 - Sh(carry, 4) && d2 == carry - Sh(lost, 2)
    requires t' == t + Sh(d1, i) + Sh(d2, i + 4) && 0 <= t' < Pw(i + 6)
    ensures t' == q * b
  {
    hide Sh, Pw;
    ProductWords(q, b, i + 4);
    ShAdd(q * b1, Sh(carry, 4), i);
    ShSh(carry, 4, i);
    ShAdd(carry, Sh(lost, 2), i + 4);
    ShSh(lost, 2, i + 4);
    ShAdd(b1, Sh(b2, 2), i);
    ShSh(b2, 2, i);
    Distribute(b0, Sh(b1, i) + Sh(b2, i + 2), q);
    Distribute(Sh(b1, i), Sh(b2, i + 2), q);
    ShMul(q, b1, i);
    ShMul(q, b2, i + 2);
    PwOne(i + 6);
    ShMono(0, 0, i + 6);
  }

  /** The last pair of divisor words, when no even block lies above it. The product
      leaves no carry, which would have gone beyond T. */
  method LastOddBlock(mem: array<word>, T: nat, Q: nat, B: nat, i: nat, ghost q: int) returns (carry: word)
    requires T + i + 4 <= mem.Length && B + i + 2 <= mem.Length && Q + 2 <= mem.Length
    requires Disjoint(T, i + 4, B, i + 2) && Disjoint(T, i + 4, Q, 2)
    requires q == V(mem[..], Q, 2)
    requires V(mem[..], T, i + 2) == q * V(mem[..], B, i) && V(mem[..], T + i + 2, 2) == 0
    modifies mem
    ensures Frame(old(mem[..]), mem[..], T + i, 4)
    ensures V(mem[..], T, i + 4) == q * V(mem[..], B, i + 2) && carry == 0
  {
    hide V, Sh, Pw;
    ghost var m0 := mem[..];
    ghost var b0, b1 := V(m0, B, i), V(m0, B + i, 2);
    carry := Multiply2Add(mem, T + i, Q, B + i);
    ghost var m1 := mem[..];
    WindowDelta(m0, m1, T, i, 4, i + 4);
    SameV(m0, m1, B, i + 2);
    Split(m0, B, i, 2);
    Split(m0, T, i + 2, 2);
    ShMono(0, 0, i + 2);
    NoLastCarry(i, q, b0, b1, V(m0, B, i + 2), carry, V(m1, T + i, 4) - V(m0, T + i, 4), V(m1, T, i + 4));
  }

  lemma NoLastCarry(i: nat, q: int, b0: int, b1: int, b: int, carry: word, d: int, t': int)
    requires b == b0 + Sh(b1, i) && 0 <= b < Pw(i + 2) && 0 <= q < Pw(2)
    requires d == q * b1 - Sh(carry, 4) && carry <= 1
    requires t' == q * b0 + Sh(d, i) && 0 <= t' < Pw(i + 4)
    ensures t' == q * b && carry == 0
  {
    hide Sh, Pw;
    ProductWords(q, b, i + 2);
    ShAdd(q * b1, Sh(carry, 4), i);
    ShSh(carry, 4, i);
    Distribute(b0, Sh(b1, i), q);
    ShMul(q, b1, i);
    PwOne(i + 4);
    ShMono(0, 0, i + 4);
  }

  /** q two words, b n words: the product has no more than n + 2. */
  lemma ProductWords(q: int, b: int, n: nat)
    requires 0 <= q < Pw(2) && 0 <= b < Pw(n)
    ensures 0 <= q * b < Pw(n + 2)
  {
    hide Pw;
    PwAdd(2, n);
    ProductBelow(q, b, Pw(2), Pw(n));
  }

  /** T[N+2] := Q[2] * B[N] */
  method MultiplyByPair(mem: array<word>, T: nat, Q: nat, B: nat, N: nat)
    requires 0 < N && N % 2 == 0 && T + N + 2 <= mem.Length && B + N <= mem.Length && Q + 2 <= mem.Length
    requires Disjoint(T, N + 2, B, N) && Disjoint(T, N + 2, Q, 2)
    modifies mem
    ensures Frame(old(mem[..]), mem[..], T, N + 2)
    ensures V(mem[..], T, N + 2) == V(old(mem[..]), Q, 2) * V(old(mem[..]), B, N)
  {
    hide V, Sh, Pw;
    ghost var m0 := mem[..];
    ghost var q := V(m0, Q, 2);
    mem[T + N] := 0;
    mem[T + N + 1] := 0;
    SameV(m0, mem[..], Q, 2);
    EvenBlocks(mem, T, Q, B, N);
    ghost var m1 := mem[..];
    SameV(m0, m1, Q, 2);
    OddBlocks(mem, T, Q, B, N, q);
    SameV(m0, mem[..], B, N);
  }

  method OddBlocks(mem: array<word>, T: nat, Q: nat, B: nat, N: nat, ghost q: int)
    requires 0 < N && N % 2 == 0 && T + N + 2 <= mem.Length && B + N <= mem.Length && Q + 2 <= mem.Length
    requires Disjoint(T, N + 2, B, N) && Disjoint(T, N + 2, Q, 2)
    requires V(mem[..], Q, 2) == q && BlocksFrom(mem[..], T, B, q, 0, (N + 2) / 4)
    requires N % 4 == 0 ==> mem[T + N] == 0 && mem[T + N + 1] == 0
    modifies mem
    ensures Frame(old(mem[..]), mem[..], T, N + 2)
    ensures V(mem[..], T, N + 2) == q * V(mem[..], B, N)
  {
    hide V, BlocksFrom;
    ghost var m0 := mem[..];
    FirstBlock(m0, T, B, q, (N + 2) / 4);
    var i: nat := 2;
    while i < N
      invariant i % 4 == 2 && i <= N + 2
      invariant Frame(m0, mem[..], T, N + 2)
      invariant OddState(mem[..], T, B, N, q, i)
    {
      SameV(m0, mem[..], Q, 2);
      OddStep(mem, T, Q, B, N, i, q);
      i := i + 4;
    }
  }

  /** All divisor words below i (or N) are in; the even blocks above wait. */
  ghost predicate OddState(m: seq<word>, T: nat, B: nat, N: nat, q: int, i: nat)
    requires N % 2 == 0 && T + N + 2 <= |m| && B + N <= |m| && i <= N + 2
  {
    var d := if i < N then i else N;
    && V(m, T, d + 2) == q * V(m, B, d)
    && (i < N ==> BlocksFrom(m, T, B, q, i / 4 + 1, (N + 2) / 4))
    && (N % 4 == 0 && i < N ==> m[T + N] == 0 && m[T + N + 1] == 0)
  }

  method OddStep(mem: array<word>, T: nat, Q: nat, B: nat, N: nat, i: nat, ghost q: int)
    requires N % 2 == 0 && T + N + 2 <= mem.Length && B + N <= mem.Length && Q + 2 <= mem.Length
    requires Disjoint(T, N + 2, B, N) && Disjoint(T, N + 2, Q, 2)
    requires V(mem[..], Q, 2) == q && i % 4 == 2 && i < N && OddState(mem[..], T, B, N, q, i)
    modifies mem
    ensures Frame(old(mem[..]), mem[..], T, N + 2)
    ensures OddState(mem[..], T, B, N, q, i + 4)
  {
    hide V, Sh;
    ghost var m0 := mem[..];
    if i + 2 < N {
      assert Block(m0, T, B, q, i / 4 + 1);
      assert T + 4 * (i / 4 + 1) == T + i + 2 && B + 4 * (i / 4 + 1) == B + i + 2;
      OddBlock(mem, T, Q, B, i, q);
      BlocksKept(m0, mem[..], T, B, q, i / 4 + 2, (N + 2) / 4, T + i, 6);
    } else {
      ZeroV(m0, T + N, 2);
      var _ := LastOddBlock(mem, T, Q, B, i, q);
    }
  }

  lemma FirstBlock(m: seq<word>, T: nat, B: nat, q: int, k: nat)
    requires T + 4 * k <= |m| && B + 4 * k <= |m| + 2 && 0 < k && BlocksFrom(m, T, B, q, 0, k)
    ensures V(m, T, 4) == q * V(m, B, 2) && BlocksFrom(m, T, B, q, 1, k)
  {
    hide V;
    assert Block(m, T, B, q, 0);
  }

  /** T[N+2] := {Q1,Q0} * B; one row is enough when Q1 is zero. */
  method EstimateProduct(mem: array<word>, T: nat, Q: nat, B: nat, N: nat)
    requires 0 < N && N % 2 == 0 && T + N + 2 <= mem.Length && B + N <= mem.Length && Q + 2 <= mem.Length
    requires Disjoint(T, N + 2, B, N) && Disjoint(T, N + 2, Q, 2)
    modifies mem
    ensures Frame(old(mem[..]), mem[..], T, N + 2)
    ensures V(mem[..], T, N + 2) == V(old(mem[..]), Q, 2) * V(old(mem[..]), B, N)
  {
    hide V, Sh, Pw;
    if mem[Q + 1] != 0 {
      MultiplyByPair(mem, T, Q, B, N);
    } else {
      V2(mem[..], Q);
      var carry := LinearMultiply(mem, T, B, mem[Q], N);
      ghost var m1 := mem[..];
      mem[T + N] := carry;
      ghost var m2 := mem[..];
      mem[T + N + 1] := 0;
      Grow(m1, m2, T, N);
      Grow(m2, mem[..], T, N + 1);
      ShMono(0, 0, N + 1);
    }
  }

  /** Does the N+1 word remainder still contain the divisor? */
  method AtLeast(mem: array<word>, R: nat, B: nat, N: nat) returns (more: bool)
    requires R + N + 1 <= mem.Length && B + N <= mem.Length
    ensures more <==> V(mem[..], R, N + 1) >= V(mem[..], B, N)
  {
    hide V, Sh, Pw;
    Top(mem[..], R, N);
    PwOne(N);
    ShMono(0, 0, N);
    if mem[R + N] != 0 {
      ShMono(1, mem[R + N], N);
      return true;
    }
    var c := Compare(mem, R, B, N);
    return c >= 0;
  }

  /** R[N+1] -= B[N], for a remainder that contains the divisor. */
  method SubtractOnce(mem: array<word>, R: nat, B: nat, N: nat)
    requires N % 2 == 0 && R + N + 1 <= mem.Length && B + N <= mem.Length && Disjoint(R, N + 1, B, N)
    requires V(mem[..], R, N + 1) >= V(mem[..], B, N)
    modifies mem
    ensures Frame(old(mem[..]), mem[..], R, N + 1)
    ensures V(mem[..], R, N + 1) == V(old(mem[..]), R, N + 1) - V(old(mem[..]), B, N)
  {
    hide V, Sh, Pw;
    ghost var m0 := mem[..];
    Top(m0, R, N);
    var borrow := Subtract(mem, R, R, B, N);
    ghost var m1 := mem[..];
    ShAdd(mem[R + N], borrow, N);
    HighStays(V(m1, R, N), mem[R + N] - borrow, N);
    mem[R + N] := (mem[R + N] - borrow) % W;
    Grow(m1, mem[..], R, N);
  }

  /** Corrects the underestimated quotient {Q1,Q0}: R := R mod B, Q := R / B. */
  method CorrectQuotientEstimate(mem: array<word>, R: nat, T: nat, Q: nat, B: nat, N: nat)
    requires 0 < N && N % 2 == 0
    requires R + N + 2 <= mem.Length && T + N + 2 <= mem.Length && Q + 2 <= mem.Length && B + N <= mem.Length
    requires Disjoint(R, N + 2, T, N + 2) && Disjoint(R, N + 2, Q, 2) && Disjoint(R, N + 2, B, N)
    requires Disjoint(T, N + 2, Q, 2) && Disjoint(T, N + 2, B, N) && Disjoint(Q, 2, B, N)
    requires var r, b := V(mem[..], R, N + 2), V(mem[..], B, N);
      r < Sh(b, 2) && 0 <= r - V(mem[..], Q, 2) * b < Pw(N + 1)
    modifies mem
    ensures Frame3(old(mem[..]), mem[..], R, N + 2, T, N + 2, Q, 2)
    ensures mem[R + N] == 0 && mem[R + N + 1] == 0
    ensures V(mem[..], R, N) < V(old(mem[..]), B, N)
    ensures V(old(mem[..]), R, N + 2) == V(mem[..], Q, 2) * V(old(mem[..]), B, N) + V(mem[..], R, N)
  {
    hide V, Sh, Pw;
    ghost var m0 := mem[..];
    ghost var r, b := V(m0, R, N + 2), V(m0, B, N);
    EstimateProduct(mem, T, Q, B, N);
    ghost var m1 := mem[..];
    Kept(m0, m1, T, N + 2, R, N + 2);
    SameV(m0, m1, Q, 2);
    var borrow := Subtract(mem, R, R, T, N + 2);
    ghost var m2 := mem[..];
    SameV(m1, m2, Q, 2);
    SameV(m0, m2, B, N);
    SmallRemainder(m2, R, N, borrow, r - V(m0, Q, 2) * b);
    AddDigits(mem, R, Q, B, N, r);
    Top(mem[..], R, N);
    RemainderTop(mem[..], R, N, b);
  }

  lemma SmallRemainder(m: seq<word>, R: nat, N: nat, borrow: word, x: int)
    requires R + N + 2 <= |m| && borrow <= 1
    requires V(m, R, N + 2) - Sh(borrow, N + 2) == x && 0 <= x < Pw(N + 1)
    ensures V(m, R, N + 1) == x && m[R + N + 1] == 0
  {
    hide V, Sh, Pw;
    PwOne(N + 2);
    PwOne(N + 1);
    ShMono(0, 0, N + 2);
    ShMono(0, 0, N + 1);
    Top(m, R, N + 1);
    if m[R + N + 1] > 0 { ShMono(1, m[R + N + 1], N + 1); }
  }

  lemma RemainderTop(m: seq<word>, R: nat, N: nat, b: int)
    requires R + N + 1 <= |m| && V(m, R, N + 1) < b < Pw(N)
    ensures m[R + N] == 0 && V(m, R, N) == V(m, R, N + 1)
  {
    hide V, Sh, Pw;
    Top(m, R, N);
    PwOne(N);
    ShMono(0, 0, N);
    if m[R + N] > 0 { ShMono(1, m[R + N], N); }
  }

  /** The correction loop: one divisor at a time. */
  method AddDigits(mem: array<word>, R: nat, Q: nat, B: nat, N: nat, ghost r: int)
    requires 0 < N && N % 2 == 0 && R + N + 1 <= mem.Length && Q + 2 <= mem.Length && B + N <= mem.Length
    requires Disjoint(R, N + 1, Q, 2) && Disjoint(R, N + 1, B, N) && Disjoint(Q, 2, B, N)
    requires r == V(mem[..], Q, 2) * V(mem[..], B, N) + V(mem[..], R, N + 1) && r < Sh(V(mem[..], B, N), 2)
    modifies mem
    ensures Frame2(old(mem[..]), mem[..], R, N + 1, Q, 2)
    ensures V(mem[..], R, N + 1) < V(old(mem[..]), B, N)
    ensures r == V(mem[..], Q, 2) * V(old(mem[..]), B, N) + V(mem[..], R, N + 1)
  {
    hide V, Sh, Pw;
    ghost var m0 := mem[..];
    ghost var b := V(m0, B, N);
    var more := AtLeast(mem, R, B, N);
    while more
      invariant Frame2(m0, mem[..], R, N + 1, Q, 2)
      invariant V(mem[..], B, N) == b
      invariant more <==> V(mem[..], R, N + 1) >= b
      invariant r == V(mem[..], Q, 2) * b + V(mem[..], R, N + 1)
      decreases V(mem[..], R, N + 1)
    {
      ghost var m1 := mem[..];
      DivisorPositive(b, r, 2);
      SubtractOnce(mem, R, B, N);
      ghost var m2 := mem[..];
      Kept(m1, m2, R, N + 1, Q, 2);
      var lost := BumpPair(mem, Q);
      ghost var m3 := mem[..];
      Kept(m2, m3, Q, 2, R, N + 1);
      SameV(m0, m3, B, N);
      DigitFits(V(m1, Q, 2), b, r, V(m1, R, N + 1), lost, V(m3, Q, 2));
      more := AtLeast(mem, R, B, N);
    }
  }

  lemma DivisorPositive(b: int, r: int, n: nat)
    requires 0 <= b && 0 <= r < Sh(b, n)
    ensures 0 < b
  {
    ShMono(0, 0, n);
  }

  lemma DigitFits(q: int, b: int, r: int, rest: int, lost: word, q': int)
    requires 0 < b <= rest && r == q * b + rest && r < Sh(b, 2) && 0 <= q'
    requires lost <= 1 && q' + Sh(lost, 2) == q + 1
    ensures q' == q + 1 && r == q' * b + (rest - b)
  {
    hide Sh, Pw;
    Distribute(q, 1, b);
    ShIsMul(b, 2);
    PwOne(2);
    ShMono(0, 0, 2);
    if q + 1 >= Pw(2) { MulMonotone(b, Pw(2), q + 1); }
  }

  /** m' is m except possibly in three runs. */
  ghost predicate Frame3(m: seq<word>, m': seq<word>, p: nat, n: nat, q: nat, k: nat, s: nat, l: nat) {
    |m'| == |m|
    && forall i ::
         0 <= i < |m| && !(p <= i < p + n) && !(q <= i < q + k) && !(s <= i < s + l) ==> m'[i] == m[i]
  }
}
