/** The high half of a product whose low half is already known. */
module HighHalf {
  import opened Arithmetic
  import opened Words
  import opened LowLevel
  import opened Multiply
  import opened Karatsuba

  /** R[N] := floor(A[N] * B[N] / W^N), given L[N] = the low half of that
      product, with work space T[2N]. The product of the two low halves is never
      formed: the carry it would give is recovered from borrows. */
  method RecursiveMultiplyTop(mem: array<word>, R: nat, T: nat, L: nat, A: nat, B: nat, N: nat)
    requires IsSize(N) && Ranges(mem.Length, R, N, T, 2 * N, A, B, N)
    requires L + N <= mem.Length && Disjoint(R, N, L, N) && Disjoint(T, 2 * N, L, N)
    requires V(mem[..], L, N) == LowPart(V(mem[..], A, N) * V(mem[..], B, N), N)
    modifies mem
    ensures Frame2(old(mem[..]), mem[..], R, N, T, 2 * N)
    ensures V(mem[..], R, N) == HighPart(V(old(mem[..]), A, N) * V(old(mem[..]), B, N), N)
  {
    hide V, Sh, LowPart, HighPart, Disjoint, Ranges;
    SizeEven(N);
    ghost var m0 := mem[..];
    TopRanges(mem.Length, R, T, L, A, B, N);
    ghost var ab := V(m0, A, N) * V(m0, B, N);
    Parts(ab, N);
    if N == 4 || N == 2 {
      MultiplyRows(mem, T, A, B, N);
      Split(mem[..], T, N, N);
      PartsUnique(ab, N, V(mem[..], T, N), V(mem[..], T + N, N));
      CopyWords(mem, R, T + N, N);
    } else {
      var N2 := N / 2;
      HalvesProduct(m0, A, B, N2);
      TopByHalves(mem, R, T, L, A, B, N2, HighPart(ab, N));
    }
  }

  method TopByHalves(mem: array<word>, R: nat, T: nat, L: nat, A: nat, B: nat, h: nat, ghost high: int)
    requires h % 2 == 0 && h > 1 && IsSize(2 * h) && IsSize(h)
    requires Ranges(mem.Length, R, 2 * h, T, 4 * h, A, B, 2 * h)
    requires L + 2 * h <= mem.Length && Disjoint(R, 2 * h, L, 2 * h) && Disjoint(T, 4 * h, L, 2 * h)
    requires var a0, a1, b0, b1 := V(mem[..], A, h), V(mem[..], A + h, h), V(mem[..], B, h), V(mem[..], B + h, h);
      V(mem[..], L, 2 * h) + Sh(high, 2 * h) == a0 * b0 + Sh(a0 * b1 + a1 * b0, h) + Sh(a1 * b1, 2 * h)
    modifies mem
    ensures Frame2(old(mem[..]), mem[..], R, 2 * h, T, 4 * h)
    ensures V(mem[..], R, 2 * h) == high
  {
    hide V, Sh, Disjoint, Ranges;
    ghost var m0 := mem[..];
    TopHalfRanges(mem.Length, R, T, L, A, B, h);
    ghost var a0, a1, b0, b1 := V(m0, A, h), V(m0, A + h, h), V(m0, B, h), V(m0, B + h, h);
    var carry := CrossProduct(mem, R, T, A, B, 2 * h);
    ghost var m1 := mem[..];
    Kept2(m0, m1, R, 2 * h, T, 4 * h, A + h, h);
    Kept2(m0, m1, R, 2 * h, T, 4 * h, B + h, h);
    Kept2(m0, m1, R, 2 * h, T, 4 * h, L, 2 * h);
    RecursiveMultiply(mem, T + 2 * h, R, A + h, B + h, h);
    ghost var m2 := mem[..];
    Kept2(m1, m2, T + 2 * h, 2 * h, R, 2 * h, L, 2 * h);
    Kept2(m1, m2, T + 2 * h, 2 * h, R, 2 * h, T, 2 * h);
    FoldTop(mem, R, T, L, h, carry, a0, a1, b0, b1, high);
  }

  lemma TopRanges(len: nat, R: nat, T: nat, L: nat, A: nat, B: nat, N: nat)
    requires Ranges(len, R, N, T, 2 * N, A, B, N)
    ensures T + 2 * N <= len && R + N <= len && A + N <= len && B + N <= len && Disjoint(R, N, T + N, N)
    ensures Disjoint(T, 2 * N, A, N) && Disjoint(T, 2 * N, B, N)
  {
  }

  lemma TopHalfRanges(len: nat, R: nat, T: nat, L: nat, A: nat, B: nat, h: nat)
    requires Ranges(len, R, 2 * h, T, 4 * h, A, B, 2 * h)
    requires L + 2 * h <= len && Disjoint(R, 2 * h, L, 2 * h) && Disjoint(T, 4 * h, L, 2 * h)
    ensures Ranges(len, T + 2 * h, 2 * h, R, 2 * h, A + h, B + h, h)
    ensures R + 2 * h <= len && T + 4 * h <= len && L + 2 * h <= len
    ensures Disjoint(R, 2 * h, A + h, h) && Disjoint(T, 4 * h, A + h, h)
    ensures Disjoint(R, 2 * h, B + h, h) && Disjoint(T, 4 * h, B + h, h)
    ensures Disjoint(T + 2 * h, 2 * h, L, 2 * h) && Disjoint(T + 2 * h, 2 * h, T, 2 * h) && Disjoint(R, 2 * h, T, 2 * h)
    ensures Disjoint(R, 2 * h, T, 4 * h)
    ensures A + 2 * h <= len && B + 2 * h <= len
  {
  }

  /** R := the high half, from L, T[01] = the cross product and T[23] = A1*B1. */
  method FoldTop(mem: array<word>, R: nat, T: nat, L: nat, h: nat, carry0: int,
                 ghost a0: int, ghost a1: int, ghost b0: int, ghost b1: int, ghost high: int)
    requires h > 0 && h % 2 == 0 && R + 2 * h <= mem.Length && T + 4 * h <= mem.Length && L + 2 * h <= mem.Length
    requires Disjoint(R, 2 * h, T, 4 * h) && Disjoint(R, 2 * h, L, 2 * h)
    requires 0 <= a0 < Pw(h) && 0 <= a1 < Pw(h) && 0 <= b0 < Pw(h) && 0 <= b1 < Pw(h)
    requires carry0 == 0 || carry0 == -1
    requires V(mem[..], T, 2 * h) + Sh(carry0, 2 * h) == (a1 - a0) * (b0 - b1)
    requires V(mem[..], T + 2 * h, 2 * h) == a1 * b1
    requires V(mem[..], L, 2 * h) + Sh(high, 2 * h)
          == a0 * b0 + Sh(a0 * b1 + a1 * b0, h) + Sh(a1 * b1, 2 * h)
    modifies mem
    ensures Frame(old(mem[..]), mem[..], R, 2 * h)
    ensures V(mem[..], R, 2 * h) == high
  {
    hide V, Sh, Pw;
    ghost var m0 := mem[..];
    ghost var y0, y1 := V(m0, T + 2 * h, h), V(m0, T + 3 * h, h);
    var carry;
    ghost var c2, t, r2;
    carry, c2, t, r2 := FoldLow(mem, R, T, L, h, carry0);
    ghost var m1 := mem[..];
    ghost var r5 := V(m1, R, h);
    Split(m0, T, h, h);
    Split(m0, T + 2 * h, h, h);
    Split(m0, L, h, h);
    TopCarry(h, a0 * b0, a1 * b1, a0 * b1 + a1 * b0, V(m0, L, h), V(m0, L + h, h), V(m0, T, h), V(m0, T + h, h),
             y0, y1, carry0, c2, t, r2, r5, carry, high, a0, a1, b0, b1);
    HighBounds(a0, a1, b0, b1, V(m0, L, 2 * h), y0, y1, r5, carry, high, h);
    CopyWords(mem, R + h, T + 3 * h, h);
    Kept(m0, m1, R, h, T + 3 * h, h);
    var c := Increment(mem, R + h, h, carry);
    SameV(m1, mem[..], R, h);
    Split(mem[..], R, h, h);
    LastCarry(V(mem[..], R + h, h), c, y1 + carry, r5, high, h);
  }

  /** The words of R0: two subtractions, the recovered carry, two additions.
      c2 counts the borrows, t says whether one more carry is missing. */
  method FoldLow(mem: array<word>, R: nat, T: nat, L: nat, h: nat, carry0: int)
    returns (carry: int, ghost c2: int, ghost t: int, ghost r2: int)
    requires h > 0 && h % 2 == 0 && R + 2 * h <= mem.Length && T + 4 * h <= mem.Length && L + 2 * h <= mem.Length
    requires Disjoint(R, 2 * h, T, 4 * h) && Disjoint(R, 2 * h, L, 2 * h)
    modifies mem
    ensures Frame(old(mem[..]), mem[..], R, h)
    ensures 0 <= r2 < Pw(h)
    ensures r2 - Sh(c2, h) == V(old(mem[..]), L + h, h) - V(old(mem[..]), L, h) - V(old(mem[..]), T, h)
    ensures t == if r2 < V(old(mem[..]), T + 2 * h, h) then 1 else 0
    ensures V(mem[..], R, h) + Sh(carry - carry0 - t, h)
         == r2 + c2 + t + V(old(mem[..]), T + h, h) + V(old(mem[..]), T + 3 * h, h)
  {
    hide V, Sh, Pw;
    ghost var m0 := mem[..];
    var borrows, less;
    borrows, less := FoldBorrows(mem, R, T, L, h);
    ghost var m1 := mem[..];
    c2, t, r2 := borrows, less, V(m1, R, h);
    carry := carry0 + less;
    var i := Increment(mem, R, h, borrows + less);
    ghost var m2 := mem[..];
    SameV(m0, m2, T + h, h);
    var j := Add(mem, R, R, T + h, h);
    ghost var m3 := mem[..];
    SameV(m0, m3, T + 3 * h, h);
    var k := Add(mem, R, R, T + 3 * h, h);
    carry := carry + i + j + k;
    ShAdd(i, j, h);
    ShAdd(i + j, k, h);
  }

  method FoldBorrows(mem: array<word>, R: nat, T: nat, L: nat, h: nat) returns (borrows: word, less: word)
    requires h > 0 && h % 2 == 0 && R + 2 * h <= mem.Length && T + 4 * h <= mem.Length && L + 2 * h <= mem.Length
    requires Disjoint(R, 2 * h, T, 4 * h) && Disjoint(R, 2 * h, L, 2 * h)
    modifies mem
    ensures Frame(old(mem[..]), mem[..], R, h)
    ensures borrows <= 2
    ensures less == if V(mem[..], R, h) < V(old(mem[..]), T + 2 * h, h) then 1 else 0
    ensures V(mem[..], R, h) - Sh(borrows, h)
        == V(old(mem[..]), L + h, h) - V(old(mem[..]), L, h) - V(old(mem[..]), T, h)
  {
    hide V, Sh, Pw;
    ghost var m0 := mem[..];
    borrows := Subtract(mem, R, L + h, L, h);
    Kept(m0, mem[..], R, h, T, h);
    var c := Subtract(mem, R, R, T, h);
    ShAdd(borrows, c, h);
    borrows := borrows + c;
    SameV(m0, mem[..], T + 2 * h, h);
    var cmp := Compare(mem, R, T + 2 * h, h);
    less := if cmp == -1 then 1 else 0;
  }

  /** The product written out in digits of weight W^h: x is the part that was
      not computed, d the cross product, y the high product. */
  lemma DigitsOfProduct(h: nat, X: int, Y: int, mid: int, x0: int, x1: int, l0: int, l1: int,
                        d0: int, d1: int, y0: int, y1: int, carry0: int, high: int)
    requires X == x0 + Sh(x1, h) && Y == y0 + Sh(y1, h) && 0 <= x0 < Pw(h) && 0 <= l0 < Pw(h)
    requires mid == X + Y + (d0 + Sh(d1, h) + Sh(carry0, 2 * h))
    requires l0 + Sh(l1, h) + Sh(high, 2 * h) == X + Sh(mid, h) + Sh(Y, 2 * h)
    ensures l0 == x0
    ensures l1 + Sh(high - (x1 + y0 + y1 + d1 + Sh(carry0 + y1, h)), h) == x0 + x1 + y0 + d0
  {
    hide Sh, Pw;
    ShSh(high, h, h);
    ShAdd(l1, Sh(high, h), h);
    ShSh(Y, h, h);
    ShAdd(x1, mid, h);
    ShAdd(x1 + mid, Sh(Y, h), h);
    var whole := l0 + Sh(l1 + Sh(high, h), h);
    assert whole == x0 + Sh(x1 + mid + Sh(Y, h), h);
    PartsUnique(whole, h, l0, l1 + Sh(high, h));
    PartsUnique(whole, h, x0, x1 + mid + Sh(Y, h));
    ShSh(carry0, h, h);
    ShAdd(y0, Sh(y1, h), h);
    ShAdd(carry0, y1, h);
    ShAdd(Sh(carry0, h), Sh(y1, h), h);
    ShSh(y1, h, h);
    var g := x1 + y0 + y1 + d1 + Sh(carry0 + y1, h);
    ShAdd(high, g, h);
    ShAdd(x1 + y0 + y1 + d1, Sh(carry0 + y1, h), h);
    ShAdd(x1 + y0 + y1, d1, h);
    ShAdd(x1 + y0, y1, h);
    ShAdd(x1, y0, h);
  }

  /** c2 borrows plus the comparison give exactly the carry out of the low digit. */
  lemma RecoveredCarry(h: nat, x1: int, y0: int, k: int, c2: int, t: int, r2: int)
    requires 0 <= x1 < Pw(h) && 0 <= y0 < Pw(h) && 0 <= r2 < Pw(h)
    requires r2 == x1 + y0 - Sh(k - c2, h)
    requires t == if r2 < y0 then 1 else 0
    ensures k == c2 + t
  {
    hide Sh, Pw;
    PwOne(h);
    ShAdd(1, 1, h);
    ShAdd(1, 2, h);
    ShMono(0, 0, h);
    if k - c2 >= 2 { ShMono(2, k - c2, h); }
    if k - c2 <= -1 { ShMono(k - c2, -1, h); }
  }

  lemma TopCarry(h: nat, X: int, Y: int, mid: int, l0: int, l1: int, d0: int, d1: int, y0: int, y1: int,
                 carry0: int, c2: int, t: int, r2: int, r5: int, carry: int, high: int,
                 a0: int, a1: int, b0: int, b1: int)
    requires 0 <= a0 < Pw(h) && 0 <= b0 < Pw(h)
    requires X == a0 * b0 && Y == a1 * b1 && mid == a0 * b1 + a1 * b0
    requires d0 + Sh(d1, h) + Sh(carry0, 2 * h) == (a1 - a0) * (b0 - b1)
    requires Y == y0 + Sh(y1, h) && 0 <= y0 < Pw(h) && 0 <= l0 < Pw(h) && 0 <= r2 < Pw(h)
    requires l0 + Sh(l1, h) + Sh(high, 2 * h) == X + Sh(mid, h) + Sh(Y, 2 * h)
    requires r2 - Sh(c2, h) == l1 - l0 - d0 && t == if r2 < y0 then 1 else 0
    requires r5 + Sh(carry - carry0 - t, h) == r2 + c2 + t + d1 + y1
    ensures r5 + Sh(y1 + carry, h) == high
  {
    hide Sh, Pw, LowPart, HighPart;
    Cross(a0, a1, b0, b1);
    Parts(X, h);
    ProductBelow(a0, b0, Pw(h), Pw(h));
    var x0, x1 := LowPart(X, h), HighPart(X, h);
    HighOfSmall(X, x0, x1, h);
    DigitsOfProduct(h, X, Y, mid, x0, x1, l0, l1, d0, d1, y0, y1, carry0, high);
    var k := high - (x1 + y0 + y1 + d1 + Sh(carry0 + y1, h));
    ShAdd(k, c2, h);
    RecoveredCarry(h, x1, y0, k, c2, t, r2);
    ShAdd(carry0 + y1, t, h);
    ShAdd(carry0 + y1 + t, carry - carry0 - t, h);
  }

  lemma HighOfSmall(x: int, x0: int, x1: int, h: nat)
    requires 0 <= x < Pw(h) * Pw(h) && x == x0 + Sh(x1, h) && 0 <= x0 < Pw(h)
    ensures 0 <= x1 < Pw(h)
  {
    hide Sh, Pw;
    PwAdd(h, h);
    ShMono(0, 0, h);
    PwSh(h);
    if x1 >= Pw(h) { ShMono(Pw(h), x1, h); }
    if x1 <= -1 { ShMono(x1, -1, h); ShAdd(0, 1, h); }
  }

  lemma CubeBound(x: int, mid: int, p: int)
    requires 1 <= p && 0 <= x <= (p - 1) * (p - 1) && 0 <= mid <= 2 * ((p - 1) * (p - 1))
    ensures 0 <= x + p * mid < 2 * (p * p * p)
  {
    var q := (p - 1) * (p - 1);
    assert q == p * p - 2 * p + 1;
    MulMonotone(p, mid, 2 * q);
    MulMonotone(p, 0, mid);
    assert p * (2 * q) == 2 * (p * p * p) - 4 * (p * p) + 2 * p;
    MulMonotone(p, 1, p);
  }

  /** The high half lies between Y and Y + 2*W^h, so the last carry is 0, 1 or 2. */
  lemma HighBounds(a0: int, a1: int, b0: int, b1: int, l: int, y0: int, y1: int, r5: int, carry: int, high: int, h: nat)
    requires 0 <= a0 < Pw(h) && 0 <= a1 < Pw(h) && 0 <= b0 < Pw(h) && 0 <= b1 < Pw(h)
    requires 0 <= l < Pw(2 * h) && 0 <= r5 < Pw(h) && 0 <= y0 < Pw(h)
    requires y0 + Sh(y1, h) == a1 * b1
    requires l + Sh(high, 2 * h) == a0 * b0 + Sh(a0 * b1 + a1 * b0, h) + Sh(a1 * b1, 2 * h)
    requires r5 + Sh(y1 + carry, h) == high
    ensures 0 <= carry <= 2
    ensures 0 <= high < Pw(2 * h)
  {
    hide Sh, Pw;
    var X, Y, mid := a0 * b0, a1 * b1, a0 * b1 + a1 * b0;
    MulBelow(a0, b0, Pw(h), Pw(h));
    MulBelow(a1, b1, Pw(h), Pw(h));
    MulBelow(a0, b1, Pw(h), Pw(h));
    MulBelow(a1, b0, Pw(h), Pw(h));
    CubeBound(X, mid, Pw(h));
    ShIsMul(mid, h);
    PwAdd(h, h);
    PwAdd(2 * h, h);
    HighRange(X, mid, Y, l, high, h);
    TwoHalves(a0, a1, b0, b1, h);
    NoOverflow(a0, a1, b0, b1, h);
    HighSmall(l, high, h);
    CarryRange(y0, y1, r5, carry, high, h);
  }

  lemma HighRange(X: int, mid: int, Y: int, l: int, high: int, h: nat)
    requires 0 <= l < Pw(2 * h) && 0 <= X && 0 <= mid
    requires X + Sh(mid, h) < 2 * Pw(3 * h)
    requires l + Sh(high, 2 * h) == X + Sh(mid, h) + Sh(Y, 2 * h)
    ensures Y <= high < Y + 2 * Pw(h)
  {
    hide Sh, Pw;
    ShAdd(high, Y, 2 * h);
    ShMono(0, mid, h);
    PwShift(h, 2 * h);
    ShAdd(Pw(h), Pw(h), 2 * h);
    PwOne(2 * h);
    ShiftRange(high - Y, 2 * Pw(h), 2 * h);
  }

  lemma ShiftRange(d: int, top: int, n: nat)
    requires -Sh(1, n) < Sh(d, n) < Sh(top, n)
    ensures 0 <= d < top
  {
    hide Sh;
    ShAdd(0, 1, n);
    ShMono(0, 0, n);
    if d <= -1 { ShMono(d, -1, n); }
    if d >= top { ShMono(top, d, n); }
  }

  lemma HighSmall(l: int, high: int, h: nat)
    requires 0 <= l && l + Sh(high, 2 * h) < Pw(4 * h)
    ensures high < Pw(2 * h)
  {
    hide Sh, Pw;
    PwAdd(2 * h, 2 * h);
    if high >= Pw(2 * h) { ShMono(Pw(2 * h), high, 2 * h); }
  }

  lemma CarryRange(y0: int, y1: int, r5: int, carry: int, high: int, h: nat)
    requires 0 <= r5 < Pw(h) && 0 <= y0 < Pw(h)
    requires y0 + Sh(y1, h) <= high < y0 + Sh(y1, h) + 2 * Pw(h)
    requires r5 + Sh(y1 + carry, h) == high
    ensures 0 <= carry <= 2
  {
    hide Sh, Pw;
    ShAdd(y1, carry, h);
    PwOne(h);
    ShAdd(0, 1, h);
    ShAdd(1, 1, h);
    ShAdd(2, 1, h);
    ShMono(0, 0, h);
    if carry <= -1 { ShMono(carry, -1, h); }
    if carry >= 3 { ShMono(3, carry, h); }
  }

  lemma LastCarry(r1: int, c: word, s: int, r0: int, high: int, h: nat)
    requires 0 <= r1 < Pw(h) && c <= 1 && r1 + Sh(c, h) == s
    requires 0 <= r0 && r0 + Sh(s, h) == high < Pw(2 * h)
    ensures r0 + Sh(r1, h) == high
  {
    hide Sh, Pw;
    PwOne(h);
    ShMono(0, 0, h);
    PwAdd(h, h);
    if c == 1 { ShMono(Pw(h), s, h); }
  }
}
