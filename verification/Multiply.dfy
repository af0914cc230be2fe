/** Products of short runs: the base cases of the recursive multiplication. */
module Multiply {
  import opened Arithmetic
  import opened Words
  import opened LowLevel

  lemma MulBelow(x: int, y: int, p: int, q: int)
    requires 0 <= x < p && 0 <= y < q
    ensures 0 <= x * y <= (p - 1) * (q - 1)
  {
    assert x * y <= (p - 1) * y <= (p - 1) * (q - 1);
  }

  lemma MulWords(x: word, y: word)
    ensures 0 <= x * y <= (W - 1) * (W - 1)
  {
    MulBelow(x, y, W, W);
  }

  /** Two words by two: the product through one multiplication less. */
  lemma Cross(a0: int, a1: int, b0: int, b1: int)
    ensures (a1 - a0) * (b0 - b1) + a0 * b0 + a1 * b1 == a0 * b1 + a1 * b0
  {
    Distribute(a1, a0, b0 - b1);
    Distribute(b0, b1, a0);
    Distribute(b0, b1, a1);
  }

  lemma CrossCases(X: int, Y: int, x: int, y: int, s: int)
    requires || (x == X && y == Y && s == 0)
             || (x == -X && y == -Y && s == 0)
             || (x == X && y == Y + W && s == X)
             || (x == X + W && y == Y && s == Y)
    ensures x * y - W * s == X * Y
  {
    Distribute(X, W, Y);
    Distribute(Y, W, X);
    assert (-X) * (-Y) == X * Y;
  }

  /** The factors and the correction of the signed product (A1-A0)*(B0-B1),
      chosen from a table of wrapped differences instead of by branching. */
  method CrossTable(a0: word, a1: word, b0: word, b1: word) returns (x: word, y: word, s: word)
    ensures || (x == a1 - a0 && y == b0 - b1 && s == 0)
            || (x == a0 - a1 && y == b1 - b0 && s == 0)
            || (x == a1 - a0 && y == b0 - b1 + W && s == a1 - a0)
            || (x == a1 - a0 + W && y == b0 - b1 && s == b0 - b1)
  {
    var D: seq<word> := [(a1 - a0) % W, (a0 - a1) % W, (b0 - b1) % W, (b1 - b0) % W];
    var ai := if a1 < a0 then 1 else 0;
    var bi := if b0 < b1 then 1 else 0;
    var di := if ai == 1 && bi == 1 then 1 else 0;
    x, y := D[di], D[di + 2];
    D := D[1 := 0][3 := 0];
    s := D[ai + 1 - bi];
  }

  method CrossWords(a0: word, a1: word, b0: word, b1: word) returns (d: int, s: word)
    ensures 0 <= d <= (W - 1) * (W - 1)
    ensures d - W * s == (a1 - a0) * (b0 - b1)
  {
    var x, y;
    x, y, s := CrossTable(a0, a1, b0, b1);
    CrossCases(a1 - a0, b0 - b1, x, y, s);
    MulWords(x, y);
    d := (x as int) * y;
  }

  lemma V4(m: seq<word>, p: nat)
    requires p + 4 <= |m|
    ensures V(m, p, 4) == m[p] + W * m[p + 1] + W * W * m[p + 2] + W * W * W * m[p + 3]
    ensures Pw(4) == W * W * W * W
  {
    V2(m, p);
    V2(m, p + 2);
    Split(m, p, 2, 2);
    PwAdd(2, 2);
    assert Sh(V(m, p + 2, 2), 2) == W * (W * V(m, p + 2, 2));
  }

  /** The four result words, in the order the code forms them. */
  lemma Columns(p: int, r: int, d: int, s: int, c0: int, c1: int, t1: int, t2: int)
    requires c0 == p % W
    requires t1 == p / W + p % W + d % W + r % W && c1 == t1 % W
    requires t2 == r + t1 / W + p / W + d / W + r / W - s
    ensures c0 + W * c1 + W * W * t2 == p + W * (p + r + (d - W * s)) + W * W * r
  {
  }

  lemma ProductOfTwo(a0: int, a1: int, b0: int, b1: int)
    ensures (a0 + W * a1) * (b0 + W * b1)
         == a0 * b0 + W * (a0 * b1 + a1 * b0) + W * W * (a1 * b1)
  {
    Distribute(a0, W * a1, b0 + W * b1);
    assert (W * a1) * (b0 + W * b1) == W * (a1 * (b0 + W * b1));
    Distribute(b0, W * b1, a0);
    Distribute(b0, W * b1, a1);
    assert a0 * (W * b1) == W * (a0 * b1) && a1 * (W * b1) == W * (a1 * b1);
  }

  /** C[4] := A[2] * B[2] */
  method Multiply2(mem: array<word>, C: nat, A: nat, B: nat)
    requires C + 4 <= mem.Length && A + 2 <= mem.Length && B + 2 <= mem.Length
    requires Disjoint(C, 4, A, 2) && Disjoint(C, 4, B, 2)
    modifies mem
    ensures Frame(old(mem[..]), mem[..], C, 4)
    ensures V(mem[..], C, 4) == V(old(mem[..]), A, 2) * V(old(mem[..]), B, 2)
  {
    hide V, Sh;
    var a0, a1, b0, b1 := mem[A], mem[A + 1], mem[B], mem[B + 1];
    V2(mem[..], A);
    V2(mem[..], B);
    ghost var pa, pb := V(mem[..], A, 2), V(mem[..], B, 2);
    MulBelow(pa, pb, W * W, W * W);
    var c0, c1, t2 := Columns2(a0, a1, b0, b1);
    mem[C] := c0;
    mem[C + 1] := c1;
    mem[C + 2] := t2 % W;
    mem[C + 3] := t2 / W;
    V4(mem[..], C);
  }

  method Columns2(a0: word, a1: word, b0: word, b1: word) returns (c0: word, c1: word, t: int)
    ensures 0 <= t < W * W
    ensures c0 + W * c1 + W * W * t == (a0 + W * a1) * (b0 + W * b1)
  {
    var d, s := CrossWords(a0, a1, b0, b1);
    var A0B0 := a0 * b0;
    MulWords(a0, b0);
    c0 := A0B0 % W;
    var A1B1 := a1 * b1;
    MulWords(a1, b1);
    var t1 := A0B0 / W + A0B0 % W + d % W + A1B1 % W;
    c1 := t1 % W;
    // the double-word sum may wrap before s is taken off
    t := (A1B1 + t1 / W + A0B0 / W + d / W + A1B1 / W - s) % (W * W);
    ghost var t2 := A1B1 + t1 / W + A0B0 / W + d / W + A1B1 / W - s;
    TopColumn(a0, a1, b0, b1, d, s, c0, c1, t1, t2);
  }

  lemma TopColumn(a0: word, a1: word, b0: word, b1: word, d: int, s: word, c0: word, c1: word, t1: int, t2: int)
    requires d - W * s == (a1 - a0) * (b0 - b1)
    requires c0 == (a0 * b0) % W
    requires t1 == (a0 * b0) / W + (a0 * b0) % W + d % W + (a1 * b1) % W && c1 == t1 % W
    requires t2 == a1 * b1 + t1 / W + (a0 * b0) / W + d / W + (a1 * b1) / W - s
    ensures c0 + W * c1 + W * W * t2 == (a0 + W * a1) * (b0 + W * b1)
    ensures 0 <= t2 < W * W
  {
    Columns(a0 * b0, a1 * b1, d, s, c0, c1, t1, t2);
    Cross(a0, a1, b0, b1);
    ProductOfTwo(a0, a1, b0, b1);
    TwoByTwoBound(a0, a1, b0, b1);
    Squeeze(c0 + W * c1, t2, (a0 + W * a1) * (b0 + W * b1));
  }

  lemma Squeeze(low: int, high: int, total: int)
    requires 0 <= low < W * W && low + W * W * high == total && 0 <= total < W * W * W * W
    ensures 0 <= high < W * W
  {
  }

  lemma TwoByTwoBound(a0: word, a1: word, b0: word, b1: word)
    ensures 0 <= (a0 + W * a1) * (b0 + W * b1) < W * W * W * W
  {
    MulBelow(a0 + W * a1, b0 + W * b1, W * W, W * W);
  }

  /** C[4] += A[2] * B[2], returning the carry out. */
  method Multiply2Add(mem: array<word>, C: nat, A: nat, B: nat) returns (carry: word)
    requires C + 4 <= mem.Length && A + 2 <= mem.Length && B + 2 <= mem.Length
    requires Disjoint(C, 4, A, 2) && Disjoint(C, 4, B, 2)
    modifies mem
    ensures carry <= 1
    ensures Frame(old(mem[..]), mem[..], C, 4)
    ensures V(mem[..], C, 4) + Sh(carry, 4)
         == V(old(mem[..]), C, 4) + V(old(mem[..]), A, 2) * V(old(mem[..]), B, 2)
  {
    hide V, Sh, Pw;
    ghost var m0 := mem[..];
    V2(m0, A);
    V2(m0, B);
    V4(m0, C);
    var c0, c1, c2, c3;
    c0, c1, c2, c3, carry := Columns2Add(mem[A], mem[A + 1], mem[B], mem[B + 1],
                                         mem[C], mem[C + 1], mem[C + 2], mem[C + 3]);
    mem[C], mem[C + 1], mem[C + 2], mem[C + 3] := c0, c1, c2, c3;
    V4(mem[..], C);
    MulBelow(V(m0, A, 2), V(m0, B, 2), W * W, W * W);
    ShIsMul(carry, 4);
  }

  method Columns2Add(a0: word, a1: word, b0: word, b1: word, x0: word, x1: word, x2: word, x3: word)
    returns (c0: word, c1: word, c2: word, c3: word, carry: word)
    ensures c0 + W * c1 + W * W * c2 + W * W * W * c3 + W * W * W * W * carry
         == x0 + W * x1 + W * W * x2 + W * W * W * x3 + (a0 + W * a1) * (b0 + W * b1)
  {
    var d, s := CrossWords(a0, a1, b0, b1);
    MulWords(a0, b0);
    MulWords(a1, b1);
    MulWords(a0, b1);
    MulWords(a1, b0);
    Cross(a0, a1, b0, b1);
    ProductOfTwo(a0, a1, b0, b1);
    c0, c1, c2, c3, carry := AddedColumns((a0 as int) * b0, (a1 as int) * b1, d, s, x0, x1, x2, x3);
  }

  /** The column sums of Multiply2Add, given the three products. */
  method AddedColumns(A0B0: int, A1B1: int, d: int, s: word, x0: word, x1: word, x2: word, x3: word)
    returns (c0: word, c1: word, c2: word, c3: word, carry: word)
    requires 0 <= A0B0 <= (W - 1) * (W - 1) && 0 <= A1B1 <= (W - 1) * (W - 1) && 0 <= d <= (W - 1) * (W - 1)
    requires A0B0 + A1B1 + (d - W * s) >= 0
    ensures c0 + W * c1 + W * W * c2 + W * W * W * c3 + W * W * W * W * carry
         == x0 + W * x1 + W * W * x2 + W * W * W * x3
          + (A0B0 + W * (A0B0 + A1B1 + (d - W * s)) + W * W * A1B1)
  {
    var t := A0B0 + x0;
    c0 := t % W;
    var t1 := t / W + A0B0 % W + d % W + A1B1 % W + x1;
    c1 := t1 % W;
    // the double word may wrap before s is taken off, but ends non-negative
    ghost var sum := t1 / W + A1B1 % W + A0B0 / W + d / W + A1B1 / W - s + x2;
    AddColumns(A0B0, A1B1, d, s, t, t1, sum, x0, x1, x2, x3);
    NoWrapAround(sum);
    var t2 := (t1 / W + A1B1 % W + A0B0 / W + d / W + A1B1 / W - s + x2) % (W * W);
    c2, c3, carry := TopColumns(t2, A1B1 / W + x3);
    WeighTop(c3, carry);
  }

  lemma NoWrapAround(x: int)
    requires 0 <= x < W * W
    ensures x % (W * W) == x
  {
  }

  lemma WeighTop(c: int, carry: int)
    ensures W * W * W * (c + W * carry) == W * W * W * c + W * W * W * W * carry
  {
  }

  method TopColumns(t2: int, high: int) returns (c2: word, c3: word, carry: word)
    requires 0 <= t2 < W * W && 0 <= t2 / W + high < W * W
    ensures c2 == t2 % W && c3 + W * carry == t2 / W + high
  {
    c2 := t2 % W;
    var t3 := t2 / W + high;
    WordAndCarry(t3);
    c3 := t3 % W;
    carry := t3 / W;
  }

  lemma WordAndCarry(t: int)
    requires 0 <= t < W * W
    ensures 0 <= t / W < W
  {
  }

  lemma AddColumns(p: int, r: int, d: int, s: word, t: int, t1: int, t2: int, x0: word, x1: word, x2: word, x3: word)
    requires 0 <= p <= (W - 1) * (W - 1) && 0 <= r <= (W - 1) * (W - 1) && 0 <= d <= (W - 1) * (W - 1)
    requires p + r + (d - W * s) >= 0
    requires t == p + x0 && t1 == t / W + p % W + d % W + r % W + x1
    requires t2 == t1 / W + r % W + p / W + d / W + r / W - s + x2
    ensures 0 <= t2 < W * W && 0 <= t2 / W + r / W + x3 < W * W
    ensures t % W + W * (t1 % W) + W * W * (t2 % W) + W * W * W * (t2 / W + r / W + x3)
         == x0 + W * x1 + W * W * x2 + W * W * W * x3 + p + W * (p + r + (d - W * s)) + W * W * r
  {
  }

  /** C[N] := A[N] * B, returning the word that does not fit. */
  method LinearMultiply(mem: array<word>, C: nat, A: nat, B: word, N: nat) returns (carry: word)
    requires C + N <= mem.Length && A + N <= mem.Length && Disjoint(C, N, A, N)
    modifies mem
    ensures Frame(old(mem[..]), mem[..], C, N)
    ensures V(mem[..], C, N) + Sh(carry, N) == V(old(mem[..]), A, N) * B
  {
    hide V, Sh;
    ghost var m0 := mem[..];
    carry := 0;
    Empty(m0, A); Empty(m0, C); ShMono(0, 0, 0);
    for i := 0 to N
      invariant Frame(m0, mem[..], C, i)
      invariant V(mem[..], C, i) + Sh(carry, i) == V(m0, A, i) * B
    {
      ghost var m1 := mem[..];
      MulWords(mem[A + i], B);
      var p := mem[A + i] * B + carry;
      mem[C + i] := p % W;
      RowStep(V(m0, A, i), V(m1, C, i), m0[A + i], B, 0, carry, i);
      carry := p / W;
      Grow(m1, mem[..], C, i);
      Top(m0, A, i);
      ShMono(0, 0, i);
    }
  }

  /** One word of a row a*b + old + carry. */
  lemma RowStep(va: int, vc: int, x: int, b: int, old': int, carry: int, i: nat)
    ensures var s := x * b + old' + carry;
      Sh(s % W, i) + Sh(s / W, i + 1) == Sh(x, i) * b + Sh(old', i) + Sh(carry, i)
    ensures (va + Sh(x, i)) * b == va * b + Sh(x, i) * b
  {
    hide Sh;
    var s := x * b + old' + carry;
    ShMul(x, b, i);
    ShAdd(x * b, old', i);
    ShAdd(x * b + old', carry, i);
    ShAdd(s % W, W * (s / W), i);
    ShW(s / W, i);
    Distribute(va, Sh(x, i), b);
  }

  /** C[N] += A[N] * b, returning the word that does not fit. */
  method MultiplyAddRow(mem: array<word>, C: nat, A: nat, b: word, N: nat) returns (carry: word)
    requires C + N <= mem.Length && A + N <= mem.Length && Disjoint(C, N, A, N)
    modifies mem
    ensures Frame(old(mem[..]), mem[..], C, N)
    ensures V(mem[..], C, N) + Sh(carry, N) == V(old(mem[..]), C, N) + V(old(mem[..]), A, N) * b
  {
    hide V, Sh;
    ghost var m0 := mem[..];
    carry := 0;
    Empty(m0, A); Empty(m0, C); ShMono(0, 0, 0);
    for i := 0 to N
      invariant Frame(m0, mem[..], C, i)
      invariant V(mem[..], C, i) + Sh(carry, i) == V(m0, C, i) + V(m0, A, i) * b
    {
      ghost var m1 := mem[..];
      MulWords(mem[A + i], b);
      var p := mem[A + i] * b + mem[C + i] + carry;
      RowStep(V(m0, A, i), V(m1, C, i), m0[A + i], b, m0[C + i], carry, i);
      mem[C + i] := p % W;
      carry := p / W;
      Grow(m1, mem[..], C, i);
      Top(m0, A, i);
      Top(m0, C, i);
    }
  }

  /** C[2N] := A[N] * B[N], row by row. */
  method MultiplyRows(mem: array<word>, C: nat, A: nat, B: nat, N: nat)
    requires C + 2 * N <= mem.Length && A + N <= mem.Length && B + N <= mem.Length
    requires Disjoint(C, 2 * N, A, N) && Disjoint(C, 2 * N, B, N)
    modifies mem
    ensures Frame(old(mem[..]), mem[..], C, 2 * N)
    ensures V(mem[..], C, 2 * N) == V(old(mem[..]), A, N) * V(old(mem[..]), B, N)
  {
    hide V, Sh;
    ghost var m0 := mem[..];
    SetWords(mem, C, 0, N);
    ZeroV(mem[..], C, N);
    Empty(m0, B);
    for i := 0 to N
      invariant Frame(m0, mem[..], C, N + i)
      invariant V(mem[..], C, N + i) == V(m0, A, N) * V(m0, B, i)
    {
      Row(mem, C, A, B, N, i, m0);
    }
  }

  method Row(mem: array<word>, C: nat, A: nat, B: nat, N: nat, i: nat, ghost m0: seq<word>)
    requires i < N && C + 2 * N <= mem.Length && A + N <= mem.Length && B + N <= mem.Length
    requires Disjoint(C, 2 * N, A, N) && Disjoint(C, 2 * N, B, N)
    requires Frame(m0, mem[..], C, N + i)
    requires V(mem[..], C, N + i) == V(m0, A, N) * V(m0, B, i)
    modifies mem
    ensures Frame(m0, mem[..], C, N + i + 1)
    ensures V(mem[..], C, N + i + 1) == V(m0, A, N) * V(m0, B, i + 1)
  {
    hide V, Sh;
    ghost var m1 := mem[..];
    var b := mem[B + i];
    var carry := MultiplyAddRow(mem, C + i, A, b, N);
    ghost var m2 := mem[..];
    mem[C + i + N] := carry;
    ghost var m3 := mem[..];
    Kept(m0, m1, C, N + i, A, N);
    Split(m1, C, i, N);
    Split(m2, C, i, N);
    Kept(m1, m2, C + i, N, C, i);
    Grow(m2, m3, C, N + i);
    Top(m0, B, i);
    ghost var va, vb := V(m0, A, N), V(m0, B, i);
    ShAdd(V(m1, C + i, N), va * b, i);
    ShAdd(V(m2, C + i, N), Sh(carry, N), i);
    ShSh(carry, N, i);
    ShMul(va, b, i);
    Distribute(vb, Sh(b, i), va);
  }
}
