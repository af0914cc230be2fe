/** Products of operands of different lengths, by blocks of the shorter one. */
module AsymmetricProducts {
  import opened Arithmetic
  import opened Words
  import opened LowLevel
  import opened Multiply
  import opened Karatsuba
  import opened Halves

  /** The lengths the routine takes: equal, or the longer an even multiple of the
      shorter. */
  ghost predicate Lengths(NA: nat, NB: nat) {
    (NA == NB && IsSize(NA)) || EvenMultiple(NA, NB) || EvenMultiple(NB, NA)
  }

  ghost predicate EvenMultiple(n: nat, k: nat) {
    IsSize(n) && n < k && Multiple(k, 2 * n)
  }

  /** Any two of the sizes numbers are kept in are such lengths. */
  lemma SizesFit(NA: nat, NB: nat)
    requires IsSize(NA) && IsSize(NB)
    ensures Lengths(NA, NB)
  {
    hide Multiple;
    if NA < NB { DoublesUp(NA, NB); }
    if NB < NA { DoublesUp(NB, NA); }
  }

  lemma {:induction false} DoublesUp(n: nat, k: nat)
    requires IsSize(n) && IsSize(k) && n < k
    ensures EvenMultiple(n, k)
    decreases k
  {
    SizeEven(n);
    SizeEven(k);
    if k / 2 == n {
      MultipleProduct(1, 2 * n);
    } else if n < k / 2 {
      DoublesUp(n, k / 2);
      MultipleSum(k / 2, k / 2, 2 * n);
    } else {
      HalfNotBelow(n, k);
      assert false;
    }
  }

  /** No size lies between another and its double. */
  lemma {:induction false} HalfNotBelow(n: nat, k: nat)
    requires IsSize(n) && IsSize(k) && k / 2 < n < k
    ensures false
    decreases k
  {
    SizeEven(n);
    SizeEven(k);
    HalfNotBelow(n / 2, k / 2);
  }

  /** Result and work space of NA + NB words, clear of each other and of the
      operands. */
  ghost predicate Places(len: nat, R: nat, T: nat, A: nat, NA: nat, B: nat, NB: nat) {
    && R + (NA + NB) <= len && T + (NA + NB) <= len && A + NA <= len && B + NB <= len
    && Disjoint(R, NA + NB, T, NA + NB)
    && Disjoint(R, NA + NB, A, NA) && Disjoint(R, NA + NB, B, NB)
    && Disjoint(T, NA + NB, A, NA) && Disjoint(T, NA + NB, B, NB)
  }

  /** R[NA+NB] := A[NA] * B[NB], with work space T[NA+NB]. */
  method AsymmetricMultiply(mem: array<word>, R: nat, T: nat, A: nat, NA: nat, B: nat, NB: nat)
    requires Lengths(NA, NB) && Places(mem.Length, R, T, A, NA, B, NB)
    modifies mem
    ensures Frame2(old(mem[..]), mem[..], R, NA + NB, T, NA + NB)
    ensures V(mem[..], R, NA + NB) == V(old(mem[..]), A, NA) * V(old(mem[..]), B, NB)
  {
    hide V, IsSize, Multiple;
    if NA == NB {
      if A == B {
        RecursiveSquare(mem, R, T, A, NA);
      } else {
        RecursiveMultiply(mem, R, T, A, B, NA);
      }
    } else if NA > NB {
      ShorterFirst(mem, R, T, B, NB, A, NA);
    } else {
      ShorterFirst(mem, R, T, A, NA, B, NB);
    }
  }

  method ShorterFirst(mem: array<word>, R: nat, T: nat, A: nat, NA: nat, B: nat, NB: nat)
    requires EvenMultiple(NA, NB) && Places(mem.Length, R, T, A, NA, B, NB)
    modifies mem
    ensures Frame2(old(mem[..]), mem[..], R, NA + NB, T, NA + NB)
    ensures V(mem[..], R, NA + NB) == V(old(mem[..]), A, NA) * V(old(mem[..]), B, NB)
  {
    hide V, Multiple;
    if NA == 2 && mem[A + 1] == 0 {
      ByWord(mem, R, A, B, NB);
    } else {
      ByBlocks(mem, R, T, A, NA, B, NB);
    }
  }

  /** The shorter operand is a single word. */
  method ByWord(mem: array<word>, R: nat, A: nat, B: nat, NB: nat)
    requires R + (2 + NB) <= mem.Length && A + 2 <= mem.Length && B + NB <= mem.Length && mem[A + 1] == 0
    requires Disjoint(R, 2 + NB, A, 2) && Disjoint(R, 2 + NB, B, NB)
    modifies mem
    ensures Frame(old(mem[..]), mem[..], R, 2 + NB)
    ensures V(mem[..], R, 2 + NB) == V(old(mem[..]), A, 2) * V(old(mem[..]), B, NB)
  {
    hide V, Sh;
    ghost var m0 := mem[..];
    V2(m0, A);
    if mem[A] == 0 {
      SetWords(mem, R, 0, NB + 2);
      ZeroV(mem[..], R, 2 + NB);
    } else if mem[A] == 1 {
      CopyWords(mem, R, B, NB);
      TwoMore(mem, R, NB, 0);
      ShMono(0, 0, NB);
    } else {
      var a := mem[A];
      var carry := LinearMultiply(mem, R, B, a, NB);
      TwoMore(mem, R, NB, carry);
    }
  }

  /** R[NB] := x, R[NB+1] := 0. */
  method TwoMore(mem: array<word>, R: nat, n: nat, x: word)
    requires R + (2 + n) <= mem.Length
    modifies mem
    ensures Frame(old(mem[..]), mem[..], R + n, 2)
    ensures V(mem[..], R, 2 + n) == V(old(mem[..]), R, n) + Sh(x, n)
  {
    hide V, Sh;
    ghost var m0 := mem[..];
    mem[R + n], mem[R + n + 1] := x, 0;
    SameV(m0, mem[..], R, n);
    Split(mem[..], R, n, 2);
    V2(mem[..], R + n);
  }

  /** Every other block of n words of the run of len at p. */
  ghost function Strided(m: seq<word>, p: nat, n: nat, len: nat): int
    requires 1 <= n && p + len <= |m| + n
    decreases len
  {
    if len < 2 * n then 0
    else Strided(m, p, n, len - 2 * n) + Sh(V(m, p + (len - 2 * n), n), len - 2 * n)
  }

  lemma StridedNext(m: seq<word>, p: nat, n: nat, len: nat)
    requires 1 <= n && p + len + n <= |m|
    ensures Strided(m, p, n, len + 2 * n) == Strided(m, p, n, len) + Sh(V(m, p + len, n), len)
  {
  }

  lemma StridedNone(m: seq<word>, p: nat, n: nat)
    requires 1 <= n && p <= |m| + n
    ensures Strided(m, p, n, 0) == 0
  {
  }

  /** The even and the odd blocks make the whole run. */
  lemma {:induction false} Interleaved(m: seq<word>, p: nat, n: nat, len: nat)
    requires 1 <= n && p + len <= |m| && Multiple(len, 2 * n)
    ensures V(m, p, len) == Strided(m, p, n, len) + Sh(Strided(m, p + n, n, len), n)
    decreases len
  {
    hide V, Sh, Multiple, Strided;
    if len == 0 {
      Empty(m, p);
      StridedNone(m, p, n);
      StridedNone(m, p + n, n);
      ShMono(0, 0, n);
    } else {
      MultipleAtLeast(len, 2 * n);
      MultipleBasics(2 * n);
      MultipleSum(len, 2 * n, 2 * n);
      var l := len - 2 * n;
      Interleaved(m, p, n, l);
      Split(m, p, l, 2 * n);
      Split(m, p + l, n, n);
      StridedNext(m, p, n, l);
      StridedNext(m, p + n, n, l);
      var x, y := V(m, p + l, n), V(m, p + l + n, n);
      ShAdd(x, Sh(y, n), l);
      ShSh(y, n, l);
      ShAdd(Strided(m, p + n, n, l), Sh(y, l), n);
      ShSh(y, l, n);
    }
  }

  /** The first block apart. */
  lemma {:induction false} StridedFirst(m: seq<word>, p: nat, n: nat, len: nat)
    requires 1 <= n && 2 * n <= len && p + len <= |m| + n && Multiple(len, 2 * n)
    ensures Strided(m, p, n, len) == V(m, p, n) + Sh(Strided(m, p + 2 * n, n, len - 2 * n), 2 * n)
    decreases len
  {
    hide V, Sh, Multiple, Strided;
    var l := len - 2 * n;
    StridedNext(m, p, n, l);
    if l == 0 {
      StridedNone(m, p, n);
      StridedNone(m, p + 2 * n, n);
      ShMono(0, 0, 2 * n);
      ShOne(V(m, p, n));
    } else {
      MultipleBasics(2 * n);
      MultipleSum(len, 2 * n, 2 * n);
      MultipleAtLeast(l, 2 * n);
      StridedFirst(m, p, n, l);
      StridedNext(m, p + 2 * n, n, l - 2 * n);
      var x := V(m, p + l, n);
      ShAdd(Strided(m, p + 2 * n, n, l - 2 * n), Sh(x, l - 2 * n), 2 * n);
      ShSh(x, l - 2 * n, 2 * n);
    }
  }

  /** Every other block of B, from offset start on, times A, one after the other
      at D + start. */
  method EveryOther(mem: array<word>, D: nat, T: nat, A: nat, B: nat, n: nat, start: nat, NB: nat, ghost stop: nat)
    requires IsSize(n) && start <= stop && Multiple(stop - start, 2 * n) && NB <= stop < NB + 2 * n
    requires stop <= NB + n && D + stop <= mem.Length && T + 2 * n <= mem.Length && A + n <= mem.Length
        && B + NB <= mem.Length
    requires Disjoint(D + start, stop - start, T, 2 * n)
    requires Disjoint(D + start, stop - start, A, n) && Disjoint(D + start, stop - start, B, NB)
    requires Disjoint(T, 2 * n, A, n) && Disjoint(T, 2 * n, B, NB)
    modifies mem
    ensures 1 <= n && Frame2(old(mem[..]), mem[..], D + start, stop - start, T, 2 * n)
    ensures V(mem[..], D + start, stop - start)
         == V(old(mem[..]), A, n) * Strided(old(mem[..]), B + start, n, stop - start)
  {
    hide *;
    SizeEven(n);
    ghost var m0 := mem[..];
    var P, i := D + start, start;
    Empty(m0, P);
    StridedNone(m0, B + start, n);
    NoFrame(m0, P, T, 2 * n);
    NoProduct(V(m0, P, 0), V(m0, A, n));
    while i < NB
      invariant start <= i <= stop && Multiple(stop - i, 2 * n)
      invariant Frame2(m0, mem[..], P, i - start, T, 2 * n)
      invariant Scaled(V(mem[..], P, i - start), V(m0, A, n), Strided(m0, B + start, n, i - start))
      decreases NB - i
    {
      StepOn(stop - i, 2 * n);
      BlockClear(P, i - start, stop - start, T, A, B, i, n, NB);
      NextBlock(mem, m0, P, T, A, B + i, n, i - start, Strided(m0, B + start, n, i - start));
      StridedNext(m0, B + start, n, i - start);
      i := i + 2 * n;
    }
    StepEnd(stop - i, 2 * n);
    WholeProduct(V(mem[..], P, stop - start), V(m0, A, n), Strided(m0, B + start, n, stop - start));
  }

  lemma WholeProduct(v: int, a: int, s: int)
    requires Scaled(v, a, s)
    ensures v == a * s
  {
  }

  lemma NoFrame(m: seq<word>, p: nat, q: nat, k: nat)
    ensures Frame2(m, m, p, 0, q, k)
  {
  }

  ghost predicate Scaled(v: int, a: int, s: int) {
    v == a * s
  }

  lemma NoProduct(v: int, a: int)
    requires v == 0
    ensures Scaled(v, a, 0)
  {
  }

  lemma BlockClear(P: nat, l: nat, total: nat, T: nat, A: nat, B: nat, i: nat, n: nat, NB: nat)
    requires l + 2 * n <= total && i + n <= NB
    requires Disjoint(P, total, T, 2 * n) && Disjoint(P, total, A, n) && Disjoint(P, total, B, NB)
    requires Disjoint(T, 2 * n, B, NB)
    ensures Disjoint(P, l + 2 * n, T, 2 * n) && Disjoint(P, l + 2 * n, A, n) && Disjoint(P, l + 2 * n, B + i, n)
    ensures Disjoint(T, 2 * n, B + i, n)
  {
  }

  lemma StepOn(x: nat, b: nat)
    requires 0 < b && 0 < x && Multiple(x, b)
    ensures b <= x && Multiple(x - b, b)
  {
    hide Multiple;
    MultipleAtLeast(x, b);
    MultipleBasics(b);
    MultipleSum(x, b, b);
  }

  lemma StepEnd(x: nat, b: nat)
    requires 0 < b && Multiple(x, b) && x < b
    ensures x == 0
  {
    DivUnique(x, b, 0, x);
  }

  /** One product more, after the l words at P. */
  method NextBlock(mem: array<word>, ghost m0: seq<word>, P: nat, T: nat, A: nat, Q: nat, n: nat, l: nat, ghost s: int)
    requires IsSize(n) && P + l + 2 * n <= mem.Length && T + 2 * n <= mem.Length
    requires A + n <= mem.Length && Q + n <= mem.Length
    requires Disjoint(P, l + 2 * n, T, 2 * n) && Disjoint(P, l + 2 * n, A, n) && Disjoint(P, l + 2 * n, Q, n)
    requires Disjoint(T, 2 * n, A, n) && Disjoint(T, 2 * n, Q, n)
    requires Frame2(m0, mem[..], P, l, T, 2 * n) && Scaled(V(mem[..], P, l), V(m0, A, n), s)
    modifies mem
    ensures Frame2(m0, mem[..], P, l + 2 * n, T, 2 * n)
    ensures Scaled(V(mem[..], P, l + 2 * n), V(m0, A, n), s + Sh(V(m0, Q, n), l))
  {
    hide *;
    ghost var m1 := mem[..];
    NextClear(|m1|, P, l, T, A, Q, n);
    SameLength(m0, m1, P, l, T, 2 * n);
    Kept2(m0, m1, P, l, T, 2 * n, A, n);
    Kept2(m0, m1, P, l, T, 2 * n, Q, n);
    RecursiveMultiply(mem, P + l, T, A, Q, n);
    Kept2(m1, mem[..], P + l, 2 * n, T, 2 * n, P, l);
    FrameGrows(m0, m1, mem[..], P, l, T, 2 * n);
    Split(mem[..], P, l, 2 * n);
    ScaledNext(V(m1, P, l), V(m0, A, n), s, V(m0, Q, n), l);
  }

  lemma ScaledNext(v: int, a: int, s: int, x: int, l: nat)
    requires Scaled(v, a, s)
    ensures Scaled(v + Sh(a * x, l), a, s + Sh(x, l))
  {
    hide Sh;
    NextProduct(a, s, x, l);
  }

  lemma SameLength(m: seq<word>, m': seq<word>, p: nat, n: nat, q: nat, k: nat)
    requires Frame2(m, m', p, n, q, k)
    ensures |m'| == |m|
  {
  }

  lemma NextClear(len: nat, P: nat, l: nat, T: nat, A: nat, Q: nat, n: nat)
    requires P + l + 2 * n <= len && T + 2 * n <= len && A + n <= len && Q + n <= len
    requires Disjoint(P, l + 2 * n, T, 2 * n) && Disjoint(P, l + 2 * n, A, n) && Disjoint(P, l + 2 * n, Q, n)
    requires Disjoint(T, 2 * n, A, n) && Disjoint(T, 2 * n, Q, n)
    ensures Ranges(len, P + l, 2 * n, T, 2 * n, A, Q, n)
    ensures Disjoint(P, l, A, n) && Disjoint(P, l, Q, n) && Disjoint(P + l, 2 * n, P, l) && Disjoint(T, 2 * n, P, l)
  {
  }

  lemma FrameGrows(m0: seq<word>, m1: seq<word>, m2: seq<word>, p: nat, l: nat, q: nat, k: nat)
    requires Frame2(m0, m1, p, l, q, k) && Frame2(m1, m2, p + l, k, q, k)
    ensures Frame2(m0, m2, p, l + k, q, k)
  {
  }

  lemma NextProduct(a: int, s: int, x: int, l: nat)
    ensures a * (s + Sh(x, l)) == a * s + Sh(a * x, l)
  {
    hide Sh;
    Distribute(s, Sh(x, l), a);
    ShMul(a, x, l);
  }

  method ByBlocks(mem: array<word>, R: nat, T: nat, A: nat, NA: nat, B: nat, NB: nat)
    requires EvenMultiple(NA, NB) && Places(mem.Length, R, T, A, NA, B, NB)
    modifies mem
    ensures Frame2(old(mem[..]), mem[..], R, NA + NB, T, NA + NB)
    ensures V(mem[..], R, NA + NB) == V(old(mem[..]), A, NA) * V(old(mem[..]), B, NB)
  {
    hide V, Sh, Pw, Multiple, IsSize, Strided;
    ghost var m0 := mem[..];
    SizeEven(NA);
    StepOn(NB, 2 * NA);
    FirstBlock(mem, R, T, A, NA, B, NB);
    ghost var m2 := mem[..];
    EvenBlocks(mem, m0, R, T, A, NA, B, NB);
    ghost var m3 := mem[..];
    Split(m3, T + 2 * NA, NA, NB - 2 * NA);
    EvenSum(V(m0, A, NA), V(m0, B, NA), Strided(m0, B + 2 * NA, NA, NB - 2 * NA), V(m2, T + 2 * NA, NA), NA);
    OddBlocks(mem, m0, R, T, A, NA, B, NB);
    FoldUp(mem, R, T, NA, NB, V(m0, A, NA), V(m0, B, NB), m0, B);
  }

  /** The lowest block's product; its upper half moves to the work space. */
  method FirstBlock(mem: array<word>, R: nat, T: nat, A: nat, NA: nat, B: nat, NB: nat)
    requires IsSize(NA) && 2 * NA <= NB && Places(mem.Length, R, T, A, NA, B, NB)
    modifies mem
    ensures Frame2(old(mem[..]), mem[..], R, NA + NB, T, NA + NB)
    ensures V(mem[..], R, NA) + Sh(V(mem[..], T + 2 * NA, NA), NA) == V(old(mem[..]), A, NA) * V(old(mem[..]), B, NA)
  {
    hide V, Sh, IsSize;
    RecursiveMultiply(mem, R, T, A, B, NA);
    ghost var m1 := mem[..];
    CopyWords(mem, T + 2 * NA, R + NA, NA);
    Split(m1, R, NA, NA);
    Kept(m1, mem[..], T + 2 * NA, NA, R, NA);
  }

  /** The other even blocks, above it in the work space. */
  method EvenBlocks(mem: array<word>, ghost m0: seq<word>, R: nat, T: nat, A: nat, NA: nat, B: nat, NB: nat)
    requires IsSize(NA) && NA >= 2 && 2 * NA <= NB && Multiple(NB - 2 * NA, 2 * NA)
    requires Places(mem.Length, R, T, A, NA, B, NB) && Frame2(m0, mem[..], R, NA + NB, T, NA + NB)
    modifies mem
    ensures Frame2(m0, mem[..], R, NA + NB, T, NA + NB)
    ensures V(mem[..], R, NA) == old(V(mem[..], R, NA)) && V(mem[..], T + 2 * NA, NA) == old(V(mem[..], T + 2 * NA, NA))
    ensures V(mem[..], T + 3 * NA, NB - 2 * NA) == V(m0, A, NA) * Strided(m0, B + 2 * NA, NA, NB - 2 * NA)
  {
    hide V, Sh, Multiple, IsSize, Strided;
    ghost var m1 := mem[..];
    EveryOther(mem, T + NA, T, A, B, NA, 2 * NA, NB, NB);
    SameV(m0, m1, A, NA);
    StridedSame(m0, m1, B + 2 * NA, NA, NB - 2 * NA, NB - 2 * NA);
    Kept2(m1, mem[..], T + 3 * NA, NB - 2 * NA, T, 2 * NA, R, NA);
    Kept2(m1, mem[..], T + 3 * NA, NB - 2 * NA, T, 2 * NA, T + 2 * NA, NA);
  }

  lemma EvenSum(a: int, b: int, s: int, t: int, n: nat)
    ensures Sh(t + Sh(a * s, n), n) + a * b == Sh(t, n) + a * (b + Sh(s, 2 * n))
  {
    hide Sh;
    ShAdd(t, Sh(a * s, n), n);
    ShSh(a * s, n, n);
    NextProduct(a, b, s, 2 * n);
  }

  /** The odd blocks, above the lowest words of the result. */
  method OddBlocks(mem: array<word>, ghost m0: seq<word>, R: nat, T: nat, A: nat, NA: nat, B: nat, NB: nat)
    requires IsSize(NA) && NA >= 2 && 2 * NA <= NB && Multiple(NB, 2 * NA)
    requires Places(mem.Length, R, T, A, NA, B, NB) && Frame2(m0, mem[..], R, NA + NB, T, NA + NB)
    modifies mem
    ensures Frame2(m0, mem[..], R, NA + NB, T, NA + NB)
    ensures V(mem[..], R, NA) == old(V(mem[..], R, NA))
    ensures V(mem[..], T + 2 * NA, NB - NA) == old(V(mem[..], T + 2 * NA, NB - NA))
    ensures V(mem[..], R + NA, NB) == V(m0, A, NA) * Strided(m0, B + NA, NA, NB)
  {
    hide V, Sh, Multiple, IsSize, Strided;
    ghost var m1 := mem[..];
    EveryOther(mem, R, T, A, B, NA, NA, NB, NB + NA);
    SameV(m0, m1, A, NA);
    StridedSame(m0, m1, B + NA, NA, NB, NB - NA);
    Kept2(m1, mem[..], R + NA, NB, T, 2 * NA, R, NA);
    Kept2(m1, mem[..], R + NA, NB, T, 2 * NA, T + 2 * NA, NB - NA);
  }

  lemma {:induction false} StridedSame(m: seq<word>, m': seq<word>, p: nat, n: nat, len: nat, k: nat)
    requires 1 <= n && p + k <= |m| == |m'| && Multiple(len, 2 * n) && len <= k + n
    requires forall i :: p <= i < p + k ==> m'[i] == m[i]
    ensures Strided(m', p, n, len) == Strided(m, p, n, len)
    decreases len
  {
    hide V, Sh, Multiple, Strided;
    if len == 0 {
      StridedNone(m, p, n);
      StridedNone(m', p, n);
    } else {
      StepOn(len, 2 * n);
      var l := len - 2 * n;
      StridedSame(m, m', p, n, l, k);
      StridedNext(m, p, n, l);
      StridedNext(m', p, n, l);
      SameV(m, m', p + l, n);
    }
  }

  /** The even blocks' products added to the odd blocks'. */
  method FoldUp(mem: array<word>, R: nat, T: nat, NA: nat, NB: nat, ghost a: int, ghost b: int, ghost m0: seq<word>,
      ghost B: nat)
    requires NA >= 2 && NA % 2 == 0 && 2 * NA <= NB && Multiple(NB, 2 * NA)
    requires |m0| == mem.Length && B + NB <= |m0| && b == V(m0, B, NB) && 0 <= a < Pw(NA)
    requires R + (NA + NB) <= mem.Length && T + (NA + NB) <= mem.Length && Disjoint(R, NA + NB, T, NA + NB)
    requires V(mem[..], R, NA) + Sh(V(mem[..], T + 2 * NA, NB - NA), NA)
          == a * (V(m0, B, NA) + Sh(Strided(m0, B + 2 * NA, NA, NB - 2 * NA), 2 * NA))
    requires V(mem[..], R + NA, NB) == a * Strided(m0, B + NA, NA, NB)
    modifies mem
    ensures Frame(old(mem[..]), mem[..], R, NA + NB)
    ensures V(mem[..], R, NA + NB) == a * b
  {
    hide V, Sh, Pw, Multiple, Strided;
    ghost var m1 := mem[..];
    ghost var low, high, t, odd := V(m1, R, NA), V(m1, R + NB, NA), V(m1, T + 2 * NA, NB - NA), V(m1, R + NA, NB);
    EvenLength(NB, NA);
    Interleaved(m0, B, NA, NB);
    StridedFirst(m0, B, NA, NB);
    Folded(a, Strided(m0, B, NA, NB), Strided(m0, B + NA, NA, NB), low, t, odd, b, NA);
    var carry := Add(mem, R + NA, R + NA, T + 2 * NA, NB - NA);
    ghost var m2 := mem[..];
    ghost var middle := V(m2, R + NA, NB - NA);
    Split(m1, R + NA, NB - NA, NA);
    Kept(m1, m2, R + NA, NB - NA, R, NA);
    Kept(m1, m2, R + NA, NB - NA, R + NB, NA);
    ghost var lost: int := 0;
    if carry != 0 {
      lost := Increment(mem, R + NB, NA, 1);
    }
    ghost var m3 := mem[..];
    Kept(m2, m3, R + NB, NA, R, NB);
    Split(m2, R, NA, NB - NA);
    Split(m3, R, NB, NA);
    FoldedFits(a, b, NA, NB);
    Whole(low, middle, carry, t, odd, V(m1, R + NA, NB - NA), high, V(m3, R + NB, NA), lost, NA, NB, a * b,
      V(m3, R, NA + NB));
  }

  lemma EvenLength(k: nat, n: nat)
    requires 2 <= n && n % 2 == 0 && Multiple(k, 2 * n)
    ensures (k - n) % 2 == 0
  {
    DivParts(k, 2 * n);
    Regroup(2, n, k / (2 * n));
  }

  lemma Folded(a: int, even: int, odds: int, low: int, t: int, odd: int, b: int, n: nat)
    requires low + Sh(t, n) == a * even && odd == a * odds && b == even + Sh(odds, n)
    ensures low + Sh(t + odd, n) == a * b
  {
    hide Sh;
    ShAdd(t, odd, n);
    NextProduct(a, even, odds, n);
  }

  lemma FoldedFits(a: int, b: int, NA: nat, NB: nat)
    requires 0 <= a < Pw(NA) && 0 <= b < Pw(NB)
    ensures 0 <= a * b < Pw(NA + NB)
  {
    hide Pw, Sh;
    ProductBelow(a, b, Pw(NA), Pw(NB));
    PwAdd(NA, NB);
  }

  /** Nothing is lost from the top. */
  lemma Whole(low: int, middle: int, carry: int, t: int, odd: int, oddLow: int, high: int, top: int, lost: int,
              NA: nat, NB: nat, ab: int, v: int)
    requires NA <= NB && odd == oddLow + Sh(high, NB - NA)
    requires middle + Sh(carry, NB - NA) == oddLow + t && 0 <= carry <= 1 && 0 <= lost
    requires if carry == 0 then top == high && lost == 0 else top + Sh(lost, NA) == high + 1
    requires v == low + Sh(middle, NA) + Sh(top, NB) && 0 <= v
    requires low + Sh(t + odd, NA) == ab < Pw(NA + NB)
    ensures v == ab
  {
    hide Sh, Pw;
    var d := NB - NA;
    ShMono(0, 0, NA);
    ShMono(0, 0, NB);
    ShAdd(high, carry, d);
    assert t + odd == middle + Sh(high + carry, d);
    ShAdd(middle, Sh(high + carry, d), NA);
    ShSh(high + carry, d, NA);
    ShAdd(top, Sh(lost, NA), NB);
    ShSh(lost, NA, NB);
    PwOne(NA + NB);
    ShMono(0, 0, NA + NB);
    if lost > 0 { ShMono(1, lost, NA + NB); }
  }
}
