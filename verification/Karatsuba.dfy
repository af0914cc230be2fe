/** Recursive multiplication, its low half, and its high half given the low one. */
module Karatsuba {
  import opened Arithmetic
  import opened Words
  import opened LowLevel
  import opened Multiply

  /** The operand sizes of the recursive family: powers of two from 2 up. */
  predicate IsSize(N: nat)
    decreases N
  {
    N == 2 || (N > 2 && N % 2 == 0 && IsSize(N / 2))
  }

  lemma {:induction false} SizeEven(N: nat)
    requires IsSize(N)
    ensures N % 2 == 0 && N >= 2
    ensures N > 2 ==> N >= 4 && IsSize(N / 2) && N / 2 % 2 == 0 && N == 2 * (N / 2)
  {
    if N > 2 { SizeEven(N / 2); }
  }

  /** Two halves multiplied out. */
  lemma TwoHalves(a0: int, a1: int, b0: int, b1: int, h: nat)
    ensures (a0 + Sh(a1, h)) * (b0 + Sh(b1, h))
         == a0 * b0 + Sh(a0 * b1 + a1 * b0, h) + Sh(a1 * b1, 2 * h)
  {
    hide Sh;
    Distribute(a0, Sh(a1, h), b0 + Sh(b1, h));
    Distribute(b0, Sh(b1, h), a0);
    Distribute(b0, Sh(b1, h), Sh(a1, h));
    ShMul(a0, b1, h);
    ShMul(a1, b0, h);
    ShMul(a1, Sh(b1, h), h);
    ShMul(a1, b1, h);
    ShSh(a1 * b1, h, h);
    ShAdd(a0 * b1, a1 * b0, h);
  }

  /** The middle coefficient stays below 2 * W^2h. */
  lemma MiddleBound(a0: int, a1: int, b0: int, b1: int, h: nat)
    requires 0 <= a0 < Pw(h) && 0 <= a1 < Pw(h) && 0 <= b0 < Pw(h) && 0 <= b1 < Pw(h)
    ensures 0 <= a0 * b1 + a1 * b0 < 2 * Pw(2 * h)
  {
    hide Pw;
    PwAdd(h, h);
    ProductBelow(a0, b1, Pw(h), Pw(h));
    ProductBelow(a1, b0, Pw(h), Pw(h));
  }

  /** Operand ranges of one call: result, work space, and two inputs. */
  ghost predicate Ranges(len: nat, R: nat, rn: nat, T: nat, tn: nat, A: nat, B: nat, N: nat) {
    && R + rn <= len && T + tn <= len && A + N <= len && B + N <= len
    && Disjoint(R, rn, T, tn)
    && Disjoint(R, rn, A, N) && Disjoint(R, rn, B, N)
    && Disjoint(T, tn, A, N) && Disjoint(T, tn, B, N)
  }

  /** R[2N] := A[N] * B[N], with work space T[2N]. */
  method RecursiveMultiply(mem: array<word>, R: nat, T: nat, A: nat, B: nat, N: nat)
    requires IsSize(N) && Ranges(mem.Length, R, 2 * N, T, 2 * N, A, B, N)
    modifies mem
    ensures Frame2(old(mem[..]), mem[..], R, 2 * N, T, 2 * N)
    ensures V(mem[..], R, 2 * N) == V(old(mem[..]), A, N) * V(old(mem[..]), B, N)
    decreases N, 3
  {
    hide V, Sh;
    SizeEven(N);
    if N == 8 || N == 4 {
      MultiplyRows(mem, R, A, B, N);
    } else if N == 2 {
      Multiply2(mem, R, A, B);
    } else {
      var N2 := N / 2;
      ghost var m0 := mem[..];
      var carry := CrossProduct(mem, R, T, A, B, N);
      ghost var m1 := mem[..];
      RecursiveMultiply(mem, R, T + N, A, B, N2);
      ghost var m2 := mem[..];
      RecursiveMultiply(mem, R + N, T + N, A + N2, B + N2, N2);
      ghost var m3 := mem[..];
      SubProducts(m0, m1, m2, m3, R, T, A, B, N2);
      ghost var low, high := V(m3, R, N), V(m3, R + N, N);
      ghost var mid := Coefficients(m0, A, B, N2, low, high);
      Combine(mem, R, T, N, carry, low, mid, high);
    }
  }

  lemma HalvesProduct(m: seq<word>, A: nat, B: nat, h: nat)
    requires A + 2 * h <= |m| && B + 2 * h <= |m|
    ensures var a0, a1, b0, b1 := V(m, A, h), V(m, A + h, h), V(m, B, h), V(m, B + h, h);
      V(m, A, 2 * h) * V(m, B, 2 * h) == a0 * b0 + Sh(a0 * b1 + a1 * b0, h) + Sh(a1 * b1, 2 * h)
  {
    hide V, Sh;
    Split(m, A, h, h);
    Split(m, B, h, h);
    TwoHalves(V(m, A, h), V(m, A + h, h), V(m, B, h), V(m, B + h, h), h);
  }

  /** The middle coefficient, and the product of the whole operands from all
      three. */
  lemma Coefficients(m: seq<word>, A: nat, B: nat, h: nat, low: int, high: int) returns (mid: int)
    requires A + 2 * h <= |m| && B + 2 * h <= |m|
    requires low == V(m, A, h) * V(m, B, h) && high == V(m, A + h, h) * V(m, B + h, h)
    ensures mid == (V(m, A + h, h) - V(m, A, h)) * (V(m, B, h) - V(m, B + h, h)) + low + high
    ensures 0 <= mid < 2 * Pw(2 * h)
    ensures V(m, A, 2 * h) * V(m, B, 2 * h) == low + Sh(mid, h) + Sh(high, 2 * h)
    ensures low + Sh(mid, h) + Sh(high, 2 * h) < Pw(4 * h)
  {
    hide V, Sh, Pw;
    var a0, a1, b0, b1 := V(m, A, h), V(m, A + h, h), V(m, B, h), V(m, B + h, h);
    mid := a0 * b1 + a1 * b0;
    Split(m, A, h, h);
    Split(m, B, h, h);
    Cross(a0, a1, b0, b1);
    MiddleBound(a0, a1, b0, b1, h);
    TwoHalves(a0, a1, b0, b1, h);
    NoOverflow(a0, a1, b0, b1, h);
  }

  /** What survives the three recursive calls. */
  lemma SubProducts(m0: seq<word>, m1: seq<word>, m2: seq<word>, m3: seq<word>,
                    R: nat, T: nat, A: nat, B: nat, h: nat)
    requires Ranges(|m0|, R, 4 * h, T, 4 * h, A, B, 2 * h)
    requires Frame2(m0, m1, R, 2 * h, T, 4 * h)
    requires Frame2(m1, m2, R, 2 * h, T + 2 * h, 2 * h)
    requires Frame2(m2, m3, R + 2 * h, 2 * h, T + 2 * h, 2 * h)
    ensures Frame2(m0, m3, R, 4 * h, T, 4 * h)
    ensures V(m3, T, 2 * h) == V(m1, T, 2 * h)
    ensures V(m3, R, 2 * h) == V(m2, R, 2 * h)
    ensures V(m1, A, h) == V(m0, A, h) && V(m1, B, h) == V(m0, B, h)
    ensures V(m2, A + h, h) == V(m0, A + h, h) && V(m2, B + h, h) == V(m0, B + h, h)
  {
    hide V;
    SameV(m1, m3, T, 2 * h);
    SameV(m2, m3, R, 2 * h);
    SameV(m0, m1, A, h);
    SameV(m0, m1, B, h);
    SameV(m0, m2, A + h, h);
    SameV(m0, m2, B + h, h);
  }

  /** T[N] := (A1-A0)*(B0-B1) with the sign as a carry of -1 or 0. */
  method CrossProduct(mem: array<word>, R: nat, T: nat, A: nat, B: nat, N: nat) returns (carry: int)
    requires N > 2 && IsSize(N) && Ranges(mem.Length, R, N, T, 2 * N, A, B, N)
    modifies mem
    ensures Frame2(old(mem[..]), mem[..], R, N, T, 2 * N)
    ensures carry == 0 || carry == -1
    ensures var a0, a1 := V(old(mem[..]), A, N / 2), V(old(mem[..]), A + N / 2, N / 2);
      var b0, b1 := V(old(mem[..]), B, N / 2), V(old(mem[..]), B + N / 2, N / 2);
      V(mem[..], T, N) + Sh(carry, N) == (a1 - a0) * (b0 - b1)
    decreases N, 2
  {
    hide V, Sh, Wrapped, HighFixed;
    SizeEven(N);
    var N2 := N / 2;
    ghost var m0 := mem[..];
    var A0, A1, B0, B1 := A, A + N2, B, B + N2;
    var aComp := Compare(mem, A0, A1, N2);
    var bComp := Compare(mem, B0, B1, N2);
    match 2 * aComp + aComp + bComp {
    case -4 =>
      DifferencesLess(mem, R, T, A1, A0, B0, B1, N2, false);
      carry := -1;
    case -2 =>
      Differences(mem, R, T, A1, A0, B0, B1, N2);
      carry := 0;
    case 2 =>
      Differences(mem, R, T, A0, A1, B1, B0, N2);
      carry := 0;
    case 4 =>
      DifferencesLess(mem, R, T, A1, A0, B0, B1, N2, true);
      carry := -1;
    case _ =>
      SetWords(mem, T, 0, N);
      ZeroV(mem[..], T, N);
      carry := 0;
    }
    SignedProduct(V(m0, A1, N2) - V(m0, A0, N2), V(m0, B0, N2) - V(m0, B1, N2), V(mem[..], T, N), carry, N2);
  }

  /** The five cases of the switch, as equations on the value left in T. */
  lemma SignedProduct(x: int, y: int, t: int, carry: int, h: nat)
    requires 0 <= t < Pw(2 * h) && -Pw(h) < x < Pw(h) && -Pw(h) < y < Pw(h)
    requires || (x > 0 && y < 0 && carry == -1 && HighFixed(t, Wrapped(x, h) * Wrapped(y, h), Wrapped(x, h), h))
             || (x > 0 && y > 0 && carry == 0 && t == Wrapped(x, h) * Wrapped(y, h))
             || (x < 0 && y < 0 && carry == 0 && t == Wrapped(-x, h) * Wrapped(-y, h))
             || (x < 0 && y > 0 && carry == -1 && HighFixed(t, Wrapped(x, h) * Wrapped(y, h), Wrapped(y, h), h))
             || ((x == 0 || y == 0) && carry == 0 && t == 0)
    ensures t + Sh(carry, 2 * h) == x * y
  {
    hide Sh, Pw;
    ShMono(0, 0, 2 * h);
    if x < 0 && y < 0 {
      assert (-x) * (-y) == x * y;
    } else if carry == -1 {
      var p := Pw(h);
      PwSh(h);
      if x > 0 {
        Distribute(y, p, x);
        ShIsMul(x, h);
        assert x * y < 0;
      } else {
        Distribute(x, p, y);
        ShIsMul(y, h);
        assert x * y < 0;
      }
    }
  }

  lemma PwSh(h: nat)
    ensures Pw(h) == Sh(1, h) && Sh(-1, 2 * h) == -Pw(2 * h)
  {
    ShAdd(0, 1, 2 * h);
  }

  /** t is u with s taken off its high half, modulo W^2h. */
  ghost predicate HighFixed(t: int, u: int, s: int, h: nat) {
    t == u - Sh(s, h) || t == u - Sh(s, h) + Pw(2 * h)
  }

  /** T1 -= S */
  method SubtractFromHigh(mem: array<word>, T: nat, S: nat, h: nat)
    requires h % 2 == 0 && T + 2 * h <= mem.Length && S + h <= mem.Length && Disjoint(T, 2 * h, S, h)
    modifies mem
    ensures Frame(old(mem[..]), mem[..], T, 2 * h)
    ensures HighFixed(V(mem[..], T, 2 * h), V(old(mem[..]), T, 2 * h), V(old(mem[..]), S, h), h)
  {
    hide V, Sh;
    ghost var m0 := mem[..];
    var borrow := Subtract(mem, T + h, T + h, S, h);
    ghost var m1 := mem[..];
    Split(m0, T, h, h);
    Split(m1, T, h, h);
    Kept(m0, m1, T + h, h, T, h);
    ShAdd(V(m0, T + h, h), V(m0, S, h), h);
    ShAdd(V(m1, T + h, h), Sh(borrow, h), h);
    ShSh(borrow, h, h);
    ShMono(0, 0, 2 * h);
  }

  /** R0 := X - Y and R1 := U - Z, both wrapped; T[N] := R0 * R1. */
  method Differences(mem: array<word>, R: nat, T: nat, X: nat, Y: nat, U: nat, Z: nat, h: nat)
    requires h > 0 && h % 2 == 0 && IsSize(h)
    requires Ranges(mem.Length, R, 2 * h, T, 4 * h, X, Y, h)
    requires Ranges(mem.Length, R, 2 * h, T, 4 * h, U, Z, h)
    modifies mem
    ensures Frame2(old(mem[..]), mem[..], R, 2 * h, T, 4 * h)
    ensures V(mem[..], R, h) == Wrapped(V(old(mem[..]), X, h) - V(old(mem[..]), Y, h), h)
    ensures V(mem[..], R + h, h) == Wrapped(V(old(mem[..]), U, h) - V(old(mem[..]), Z, h), h)
    ensures V(mem[..], T, 2 * h) == V(mem[..], R, h) * V(mem[..], R + h, h)
    decreases 2 * h, 0
  {
    hide V, Sh;
    ghost var m0 := mem[..];
    var bx := Subtract(mem, R, X, Y, h);
    ghost var m1 := mem[..];
    BorrowWraps(V(m1, R, h), bx, h);
    Kept(m0, m1, R, h, U, h);
    Kept(m0, m1, R, h, Z, h);
    var bu := Subtract(mem, R + h, U, Z, h);
    ghost var m2 := mem[..];
    BorrowWraps(V(m2, R + h, h), bu, h);
    Kept(m1, m2, R + h, h, R, h);
    RecursiveMultiply(mem, T, T + 2 * h, R, R + h, h);
    ghost var m3 := mem[..];
    SameV(m2, m3, R, h);
    SameV(m2, m3, R + h, h);
  }

  /** The differences and their product, less one of them at the high half:
      R1 if `second`, else R0. */
  method DifferencesLess(mem: array<word>, R: nat, T: nat, X: nat, Y: nat, U: nat, Z: nat, h: nat, second: bool)
    requires h > 0 && h % 2 == 0 && IsSize(h)
    requires Ranges(mem.Length, R, 2 * h, T, 4 * h, X, Y, h)
    requires Ranges(mem.Length, R, 2 * h, T, 4 * h, U, Z, h)
    modifies mem
    ensures Frame2(old(mem[..]), mem[..], R, 2 * h, T, 4 * h)
    ensures var x := Wrapped(V(old(mem[..]), X, h) - V(old(mem[..]), Y, h), h);
      var y := Wrapped(V(old(mem[..]), U, h) - V(old(mem[..]), Z, h), h);
      HighFixed(V(mem[..], T, 2 * h), x * y, if second then y else x, h)
    decreases 2 * h, 1
  {
    hide V, Sh, Wrapped, HighFixed;
    Differences(mem, R, T, X, Y, U, Z, h);
    SubtractFromHigh(mem, T, if second then R + h else R, h);
  }

  /** A difference as h words show it. */
  ghost function Wrapped(x: int, h: nat): int {
    if x < 0 then x + Pw(h) else x
  }

  lemma BorrowWraps(v: int, borrow: word, h: nat)
    requires 0 <= v < Pw(h) && borrow <= 1
    ensures v == Wrapped(v - Sh(borrow, h), h)
  {
    ShMono(0, 1, h);
  }

  /** Folding the cross product into R[01] = A0*B0 and R[23] = A1*B1. */
  method Combine(mem: array<word>, R: nat, T: nat, N: nat, carry0: int, ghost low: int, ghost mid: int, ghost high: int)
    requires N >= 4 && N % 4 == 0
    requires R + 2 * N <= mem.Length && T + N <= mem.Length && Disjoint(R, 2 * N, T, N)
    requires V(mem[..], T, N) + Sh(carry0, N) == mid - low - high && 0 <= mid < 2 * Pw(N)
    requires V(mem[..], R, N) == low && V(mem[..], R + N, N) == high
    requires low + Sh(mid, N / 2) + Sh(high, N) < Pw(2 * N)
    modifies mem
    ensures Frame2(old(mem[..]), mem[..], R, 2 * N, T, N)
    ensures V(mem[..], R, 2 * N) == low + Sh(mid, N / 2) + Sh(high, N)
  {
    hide V, Sh;
    var N2 := N / 2;
    ghost var m0 := mem[..];
    var carry := carry0;
    var c := Add(mem, T, T, R, N);
    carry := carry + c;
    Kept(m0, mem[..], T, N, R + N, N);
    c := Add(mem, T, T, R + N, N);
    carry := carry + c;
    ghost var m2 := mem[..];
    ShAdd(carry0, carry - c - carry0, N);
    ShAdd(carry - c, c, N);
    assert V(m2, T, N) + Sh(carry, N) == mid;
    CarrySmall(V(m2, T, N), carry, N);
    c := Add(mem, R + N2, R + N2, T, N);
    ghost var m3 := mem[..];
    carry := carry + c;
    assert 0 <= carry <= 2;
    var c' := Increment(mem, R + N + N2, N2, carry);
    Kept(m0, m2, T, N, R, N);
    Kept(m0, m2, T, N, R + N, N);
    FinalCarry(m2, m3, mem[..], R, N2, V(m2, T, N), carry - c, c, carry, c', low, mid, high);
  }

  lemma CarrySmall(t: int, carry: int, n: nat)
    requires 0 <= t < Pw(n) && 0 <= t + Sh(carry, n) < 2 * Pw(n)
    ensures 0 <= carry <= 1
  {
    hide Sh;
    ShAdd(1, 1, n);
    ShAdd(0, 1, n);
    ShMono(0, 0, n);
    if carry < 0 { ShMono(carry, -1, n); }
    if carry > 1 { ShMono(2, carry, n); }
  }

  lemma FinalCarry(m2: seq<word>, m3: seq<word>, m4: seq<word>, R: nat, h: nat,
                   t: int, c2: int, c3: int, carry: int, c4: word, low: int, mid: int, high: int)
    requires R + 4 * h <= |m2| && 0 < h
    requires Frame(m2, m3, R + h, 2 * h) && Frame(m3, m4, R + 3 * h, h)
    requires V(m2, R, 2 * h) == low && V(m2, R + 2 * h, 2 * h) == high
    requires carry == c2 + c3 && t + Sh(c2, 2 * h) == mid
    requires V(m3, R + h, 2 * h) + Sh(c3, 2 * h) == V(m2, R + h, 2 * h) + t
    requires V(m4, R + 3 * h, h) + Sh(c4, h) == V(m3, R + 3 * h, h) + carry
    requires 0 <= carry && c4 <= 1 && low + Sh(mid, h) + Sh(high, 2 * h) < Pw(4 * h)
    ensures V(m4, R, 4 * h) == low + Sh(mid, h) + Sh(high, 2 * h)
  {
    hide V, Sh, Pw;
    Regions(m2, m3, m4, R, h);
    var r0, r1, r2, r3 := V(m2, R, h), V(m2, R + h, h), V(m2, R + 2 * h, h), V(m2, R + 3 * h, h);
    // value of R after the middle addition, with the carry still outside
    var v3 := r0 + Sh(V(m3, R + h, 2 * h), h) + Sh(r3, 3 * h);
    Weights(r1, r2, r3, V(m3, R + h, 2 * h), t, c2, c3, mid, h);
    assert v3 + Sh(carry, 3 * h) == low + Sh(mid, h) + Sh(high, 2 * h);
    ShAdd(r3, carry, 3 * h);
    ShAdd(V(m4, R + 3 * h, h), Sh(c4, h), 3 * h);
    ShSh(c4, h, 3 * h);
    assert V(m4, R, 4 * h) + Sh(c4, 4 * h) == low + Sh(mid, h) + Sh(high, 2 * h);
    ShMono(0, 0, 4 * h);
    PwOne(4 * h);
  }

  lemma NoOverflow(a0: int, a1: int, b0: int, b1: int, h: nat)
    requires 0 <= a0 < Pw(h) && 0 <= a1 < Pw(h) && 0 <= b0 < Pw(h) && 0 <= b1 < Pw(h)
    ensures (a0 + Sh(a1, h)) * (b0 + Sh(b1, h)) < Pw(4 * h)
  {
    hide Sh, Pw;
    HalvesBelow(a0, a1, h);
    HalvesBelow(b0, b1, h);
    ProductBelow(a0 + Sh(a1, h), b0 + Sh(b1, h), Pw(2 * h), Pw(2 * h));
    PwAdd(2 * h, 2 * h);
  }

  lemma HalvesBelow(a0: int, a1: int, h: nat)
    requires 0 <= a0 < Pw(h) && 0 <= a1 < Pw(h)
    ensures 0 <= a0 + Sh(a1, h) < Pw(2 * h)
  {
    hide Sh;
    ShMono(a1, Pw(h) - 1, h);
    ShMono(0, a1, h);
    ShAdd(Pw(h), 1, h);
    PwAdd(h, h);
  }

  /** The four quarters of R before, between and after the two additions. */
  lemma Regions(m2: seq<word>, m3: seq<word>, m4: seq<word>, R: nat, h: nat)
    requires R + 4 * h <= |m2|
    requires Frame(m2, m3, R + h, 2 * h) && Frame(m3, m4, R + 3 * h, h)
    ensures V(m2, R, 2 * h) == V(m2, R, h) + Sh(V(m2, R + h, h), h)
    ensures V(m2, R + 2 * h, 2 * h) == V(m2, R + 2 * h, h) + Sh(V(m2, R + 3 * h, h), h)
    ensures V(m2, R + h, 2 * h) == V(m2, R + h, h) + Sh(V(m2, R + 2 * h, h), h)
    ensures V(m3, R + 3 * h, h) == V(m2, R + 3 * h, h)
    ensures V(m4, R, 4 * h) == V(m2, R, h) + Sh(V(m3, R + h, 2 * h), h) + Sh(V(m4, R + 3 * h, h), 3 * h)
  {
    hide V, Sh;
    Split(m2, R, h, h);
    Split(m2, R + 2 * h, h, h);
    Split(m2, R + h, h, h);
    Kept(m2, m3, R + h, 2 * h, R + 3 * h, h);
    Split(m4, R, 3 * h, h);
    Split(m4, R, h, 2 * h);
    SameV(m2, m4, R, h);
    Kept(m3, m4, R + 3 * h, h, R + h, 2 * h);
  }

  lemma Weights(r1: int, r2: int, r3: int, v: int, t: int, c2: int, c3: int, mid: int, h: nat)
    requires t + Sh(c2, 2 * h) == mid
    requires v + Sh(c3, 2 * h) == r1 + Sh(r2, h) + t
    ensures Sh(v, h) + Sh(c2 + c3, 3 * h) == Sh(r1, h) + Sh(r2, 2 * h) + Sh(mid, h)
    ensures Sh(r2 + Sh(r3, h), 2 * h) == Sh(r2, 2 * h) + Sh(r3, 3 * h)
  {
    hide Sh;
    ShAdd(t, Sh(c2, 2 * h), h);
    ShAdd(v, Sh(c3, 2 * h), h);
    ShAdd(r1 + Sh(r2, h), t, h);
    ShAdd(r1, Sh(r2, h), h);
    ShSh(c2, 2 * h, h);
    ShSh(c3, 2 * h, h);
    ShSh(r2, h, h);
    ShAdd(c2, c3, 3 * h);
    ShAdd(r2, Sh(r3, h), 2 * h);
    ShSh(r3, h, 2 * h);
  }
}
