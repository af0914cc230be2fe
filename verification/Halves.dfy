/** Squares, and the low and high halves of a product. */
module Halves {
  import opened Words
  import opened LowLevel
  import opened Multiply
  import opened Karatsuba

  /** R[2N] := A[N]^2, with work space T[2N]. */
  method RecursiveSquare(mem: array<word>, R: nat, T: nat, A: nat, N: nat)
    requires IsSize(N) && Ranges(mem.Length, R, 2 * N, T, 2 * N, A, A, N)
    modifies mem
    ensures Frame2(old(mem[..]), mem[..], R, 2 * N, T, 2 * N)
    ensures V(mem[..], R, 2 * N) == V(old(mem[..]), A, N) * V(old(mem[..]), A, N)
    decreases N
  {
    hide V, Sh;
    SizeEven(N);
    if N == 4 || N == 2 {
      MultiplyRows(mem, R, A, A, N);
    } else {
      var N2 := N / 2;
      ghost var m0 := mem[..];
      RecursiveSquare(mem, R, T + N, A, N2);
      ghost var m1 := mem[..];
      RecursiveSquare(mem, R + N, T + N, A + N2, N2);
      ghost var m2 := mem[..];
      RecursiveMultiply(mem, T, T + N, A, A + N2, N2);
      SquareParts(m0, m1, m2, mem[..], R, T, A, N2);
      AddTwice(mem, R, T, N2, V(m0, A, N2), V(m0, A + N2, N2));
      HalvesProduct(m0, A, A, N2);
    }
  }

  lemma SquareParts(m0: seq<word>, m1: seq<word>, m2: seq<word>, m3: seq<word>, R: nat, T: nat, A: nat, h: nat)
    requires Ranges(|m0|, R, 4 * h, T, 4 * h, A, A, 2 * h)
    requires Frame2(m0, m1, R, 2 * h, T + 2 * h, 2 * h)
    requires Frame2(m1, m2, R + 2 * h, 2 * h, T + 2 * h, 2 * h)
    requires Frame2(m2, m3, T, 2 * h, T + 2 * h, 2 * h)
    ensures Frame2(m0, m3, R, 4 * h, T, 4 * h)
    ensures V(m3, R, 2 * h) == V(m1, R, 2 * h)
    ensures V(m3, R + 2 * h, 2 * h) == V(m2, R + 2 * h, 2 * h)
    ensures V(m1, A + h, h) == V(m0, A + h, h)
    ensures V(m2, A, h) == V(m0, A, h) && V(m2, A + h, h) == V(m0, A + h, h)
  {
    hide V;
    SameV(m1, m3, R, 2 * h);
    SameV(m2, m3, R + 2 * h, 2 * h);
    SameV(m0, m1, A + h, h);
    SameV(m0, m2, A, h);
    SameV(m0, m2, A + h, h);
  }

  /** R1 += 2 * T, carrying into R3. */
  method AddTwice(mem: array<word>, R: nat, T: nat, N2: nat, ghost a0: int, ghost a1: int)
    requires 0 < N2 && R + 4 * N2 <= mem.Length && T + 2 * N2 <= mem.Length && Disjoint(R, 4 * N2, T, 2 * N2)
    requires 0 <= a0 < Pw(N2) && 0 <= a1 < Pw(N2)
    requires V(mem[..], R, 2 * N2) == a0 * a0 && V(mem[..], R + 2 * N2, 2 * N2) == a1 * a1
    requires V(mem[..], T, 2 * N2) == a0 * a1
    modifies mem
    ensures Frame(old(mem[..]), mem[..], R, 4 * N2)
    ensures V(mem[..], R, 4 * N2) == a0 * a0 + Sh(a0 * a1 + a1 * a0, N2) + Sh(a1 * a1, 2 * N2)
  {
    hide V, Sh;
    ghost var m0 := mem[..];
    var carry := Add(mem, R + N2, R + N2, T, 2 * N2);
    Kept(m0, mem[..], R + N2, 2 * N2, T, 2 * N2);
    var c := Add(mem, R + N2, R + N2, T, 2 * N2);
    ShAdd(carry, c, 2 * N2);
    ShMono(0, 0, 2 * N2);
    carry := carry + c;
    ghost var m2 := mem[..];
    c := Increment(mem, R + 3 * N2, N2, carry);
    TwoHalves(a0, a1, a0, a1, N2);
    NoOverflow(a0, a1, a0, a1, N2);
    FinalCarry(m0, m2, mem[..], R, N2, 2 * (a0 * a1), 0, carry, carry, c, a0 * a0, a0 * a1 + a1 * a0, a1 * a1);
  }

  /** C[2] := low two words of A[2] * B[2] */
  method Multiply2Bottom(mem: array<word>, C: nat, A: nat, B: nat)
    requires C + 2 <= mem.Length && A + 2 <= mem.Length && B + 2 <= mem.Length
    requires Disjoint(C, 2, A, 2) && Disjoint(C, 2, B, 2)
    modifies mem
    ensures Frame(old(mem[..]), mem[..], C, 2)
    ensures V(mem[..], C, 2) == LowPart(V(old(mem[..]), A, 2) * V(old(mem[..]), B, 2), 2)
  {
    hide V, Sh, LowPart;
    V2(mem[..], A);
    V2(mem[..], B);
    var c0, c1 := BottomWords(mem[A], mem[A + 1], mem[B], mem[B + 1]);
    mem[C] := c0;
    mem[C + 1] := c1;
    V2(mem[..], C);
  }

  method BottomWords(a0: word, a1: word, b0: word, b1: word) returns (c0: word, c1: word)
    ensures c0 + W * c1 == LowPart((a0 + W * a1) * (b0 + W * b1), 2)
  {
    hide LowPart;
    MulWords(a0, b0);
    var t := (a0 as int) * b0;
    c0 := t % W;
    var high := t / W + (a0 as int) * b1 + (a1 as int) * b0;
    c1 := high % W;
    ProductOfTwo(a0, a1, b0, b1);
    BottomOfTwo(t, a0 * b1 + a1 * b0, a1 * b1, high, (a0 + W * a1) * (b0 + W * b1));
  }

  lemma BottomOfTwo(t: int, mid: int, top: int, c1: int, ab: int)
    requires 0 <= t && c1 == t / W + mid && ab == t + W * mid + W * W * top
    ensures LowPart(ab, 2) == t % W + W * (c1 % W)
  {
    var k := c1 / W + top;
    assert ab == t % W + W * (c1 % W) + W * (W * k);
    assert Sh(k, 2) == W * (W * k) && Pw(2) == W * W;
    PartsUnique(ab, 2, t % W + W * (c1 % W), k);
  }

  /** R[N] := low half of A[N] * B[N], with work space T[N]. */
  method RecursiveMultiplyBottom(mem: array<word>, R: nat, T: nat, A: nat, B: nat, N: nat)
    requires IsSize(N) && Ranges(mem.Length, R, N, T, N, A, B, N)
    modifies mem
    ensures Frame2(old(mem[..]), mem[..], R, N, T, N)
    ensures V(mem[..], R, N) == LowPart(V(old(mem[..]), A, N) * V(old(mem[..]), B, N), N)
    decreases N, 2
  {
    hide V, Sh, LowPart;
    SizeEven(N);
    if N == 2 {
      Multiply2Bottom(mem, R, A, B);
    } else {
      var N2 := N / 2;
      ghost var m0 := mem[..];
      ghost var a0, a1, b0, b1 := V(m0, A, N2), V(m0, A + N2, N2), V(m0, B, N2), V(m0, B + N2, N2);
      HalvesProduct(m0, A, B, N2);
      RecursiveMultiply(mem, R, T, A, B, N2);
      CrossTerms(mem, R, T, A, B, N2, m0, a0, a1, b0, b1);
    }
  }

  /** The two cross products added into R1, after R[N] := A0 * B0. */
  method CrossTerms(mem: array<word>, R: nat, T: nat, A: nat, B: nat, h: nat, ghost m0: seq<word>,
                    ghost a0: int, ghost a1: int, ghost b0: int, ghost b1: int)
    requires h % 2 == 0 && IsSize(h) && Ranges(mem.Length, R, 2 * h, T, 2 * h, A, B, 2 * h)
    requires Frame2(m0, mem[..], R, 2 * h, T, 2 * h)
    requires a0 == V(m0, A, h) && a1 == V(m0, A + h, h) && b0 == V(m0, B, h) && b1 == V(m0, B + h, h)
    requires V(mem[..], R, 2 * h) == a0 * b0
    modifies mem
    ensures Frame2(m0, mem[..], R, 2 * h, T, 2 * h)
    ensures V(mem[..], R, 2 * h) == LowPart(a0 * b0 + Sh(a0 * b1 + a1 * b0, h) + Sh(a1 * b1, 2 * h), 2 * h)
    decreases 2 * h, 1
  {
    hide V, Sh, LowPart, Disjoint, Ranges, Frame2;
    ghost var m1 := mem[..];
    CrossRanges(mem.Length, R, T, A, B, h);
    KeptInputs(m0, m1, R, 2 * h, T, 2 * h, A, B, h);
    AddBottom(mem, R + h, T, A + h, B, h, a1, b0);
    ghost var m2 := mem[..];
    KeptInputs(m1, m2, R + h, h, T, 2 * h, A, B, h);
    AddBottom(mem, R + h, T, A, B + h, h, a0, b1);
    ChainFrames(m0, m1, m2, mem[..], R, T, h);
    BottomParts(m1, m2, mem[..], R, T, h, a0, a1, b0, b1);
  }

  lemma CrossRanges(len: nat, R: nat, T: nat, A: nat, B: nat, h: nat)
    requires Ranges(len, R, 2 * h, T, 2 * h, A, B, 2 * h)
    ensures Disjoint(R, 2 * h, T, 2 * h) && R + 2 * h <= len && T + 2 * h <= len
    ensures Ranges(len, R + h, h, T, 2 * h, A + h, B, h) && Ranges(len, R + h, h, T, 2 * h, A, B + h, h)
    ensures Ranges(len, R + h, h, T, 2 * h, A, B, 2 * h)
  {
  }

  lemma KeptInputs(m: seq<word>, m': seq<word>, R: nat, rn: nat, T: nat, tn: nat, A: nat, B: nat, h: nat)
    requires Ranges(|m'|, R, rn, T, tn, A, B, 2 * h) && Frame2(m, m', R, rn, T, tn)
    ensures |m'| == |m| && A + 2 * h <= |m| && B + 2 * h <= |m|
    ensures V(m', A, h) == V(m, A, h) && V(m', A + h, h) == V(m, A + h, h)
    ensures V(m', B, h) == V(m, B, h) && V(m', B + h, h) == V(m, B + h, h)
  {
    hide V;
    SameV(m, m', A, h);
    SameV(m, m', A + h, h);
    SameV(m, m', B, h);
    SameV(m, m', B + h, h);
  }

  lemma ChainFrames(m0: seq<word>, m1: seq<word>, m2: seq<word>, m3: seq<word>, R: nat, T: nat, h: nat)
    requires Frame2(m0, m1, R, 2 * h, T, 2 * h)
    requires Frame2(m1, m2, R + h, h, T, 2 * h) && Frame2(m2, m3, R + h, h, T, 2 * h)
    ensures Frame2(m0, m3, R, 2 * h, T, 2 * h) && |m1| == |m2| == |m3|
  {
  }

  /** R[h] += low half of A[h] * B[h], modulo W^h. */
  method AddBottom(mem: array<word>, R: nat, T: nat, A: nat, B: nat, h: nat, ghost x: int, ghost y: int)
    requires h % 2 == 0 && IsSize(h) && Ranges(mem.Length, R, h, T, 2 * h, A, B, h)
    requires x == V(mem[..], A, h) && y == V(mem[..], B, h)
    modifies mem
    ensures Frame2(old(mem[..]), mem[..], R, h, T, 2 * h)
    ensures V(mem[..], R, h) == LowPart(V(old(mem[..]), R, h) + x * y, h)
    decreases 2 * h, 0
  {
    hide V, Sh, LowPart;
    ghost var m0 := mem[..];
    ghost var ab := x * y;
    RecursiveMultiplyBottom(mem, T, T + h, A, B, h);
    ghost var m1 := mem[..];
    Kept2(m0, m1, T, h, T + h, h, R, h);
    var carry := Add(mem, R, R, T, h);
    Parts(ab, h);
    ghost var k := HighPart(ab, h);
    ShAdd(k, carry, h);
    PartsUnique(V(m0, R, h) + ab, h, V(mem[..], R, h), k + carry);
  }

  lemma BottomParts(m1: seq<word>, m2: seq<word>, m3: seq<word>, R: nat, T: nat, h: nat,
                    a0: int, a1: int, b0: int, b1: int)
    requires R + 2 * h <= |m1| && T + 2 * h <= |m1| && Disjoint(R, 2 * h, T, 2 * h)
    requires Frame2(m1, m2, R + h, h, T, 2 * h) && Frame2(m2, m3, R + h, h, T, 2 * h)
    requires V(m1, R, 2 * h) == a0 * b0
    requires V(m2, R + h, h) == LowPart(V(m1, R + h, h) + a1 * b0, h)
    requires V(m3, R + h, h) == LowPart(V(m2, R + h, h) + a0 * b1, h)
    ensures V(m3, R, 2 * h) == LowPart(a0 * b0 + Sh(a0 * b1 + a1 * b0, h) + Sh(a1 * b1, 2 * h), 2 * h)
  {
    hide V, Sh, LowPart;
    SameV(m1, m3, R, h);
    Split(m1, R, h, h);
    Split(m3, R, h, h);
    BottomSum(V(m1, R, h), V(m1, R + h, h), V(m2, R + h, h), V(m3, R + h, h), a0, a1, b0, b1, h);
  }

  lemma BottomSum(r0: int, r1: int, s: int, t: int, a0: int, a1: int, b0: int, b1: int, h: nat)
    requires 0 <= r0 < Pw(h) && 0 <= t < Pw(h) && r0 + Sh(r1, h) == a0 * b0
    requires s == LowPart(r1 + a1 * b0, h) && t == LowPart(s + a0 * b1, h)
    ensures LowPart(a0 * b0 + Sh(a0 * b1 + a1 * b0, h) + Sh(a1 * b1, 2 * h), 2 * h) == r0 + Sh(t, h)
  {
    hide Sh, Pw, LowPart;
    var p, q, top := a1 * b0, a0 * b1, a1 * b1;
    Parts(r1 + p, h);
    Parts(s + q, h);
    var k1, k2 := HighPart(r1 + p, h), HighPart(s + q, h);
    assert r1 + p + q == t + Sh(k1, h) + Sh(k2, h);
    ShAdd(k1, k2, h);
    ShAdd(r1, p + q, h);
    ShAdd(t, Sh(k1 + k2, h), h);
    ShSh(k1 + k2, h, h);
    ShAdd(k1 + k2, top, 2 * h);
    HalvesBelow(r0, t, h);
    PartsUnique(a0 * b0 + Sh(q + p, h) + Sh(top, 2 * h), 2 * h, r0 + Sh(t, h), k1 + k2 + top);
  }
}
