/** The carry-propagating primitives over word runs. */
module LowLevel {
  import opened Words

  /** Writing word i of a run extends the known part of its value. */
  lemma Grow(m: seq<word>, m': seq<word>, p: nat, i: nat)
    requires Frame(m, m', p + i, 1) && p + i < |m|
    ensures V(m', p, i + 1) == V(m, p, i) + Sh(m'[p + i], i)
  {
    Top(m', p, i);
    Kept(m, m', p + i, 1, p, i);
  }

  /** If only the low i words changed, both values differ as their low parts do. */
  lemma TailSame(m: seq<word>, m': seq<word>, p: nat, i: nat, n: nat)
    requires i <= n && p + n <= |m| && Frame(m, m', p, i)
    ensures V(m', p, n) - V(m, p, n) == V(m', p, i) - V(m, p, i)
  {
    hide V, Sh;
    Split(m, p, i, n - i);
    Split(m', p, i, n - i);
    Kept(m, m', p, i, p + i, n - i);
  }

  /** Changing n words inside a run moves its value by their change, shifted. */
  lemma WindowDelta(m: seq<word>, m': seq<word>, p: nat, off: nat, n: nat, len: nat)
    requires off + n <= len && p + len <= |m| && Frame(m, m', p + off, n)
    ensures V(m', p, len) - V(m, p, len) == Sh(V(m', p + off, n) - V(m, p + off, n), off)
  {
    hide V, Sh;
    TailSame(m, m', p + off, n, len - off);
    Split(m, p, off, len - off);
    Split(m', p, off, len - off);
    Kept(m, m', p + off, n, p, off);
    ShAdd(V(m', p + off, len - off), V(m, p + off, len - off), off);
  }

  /** The first differing word from the top decides a comparison. */
  lemma DiffersAt(a: seq<word>, p: nat, b: seq<word>, q: nat, n: nat)
    requires p + n < |a| && q + n < |b|
    ensures a[p + n] > b[q + n] ==> V(a, p, n + 1) > V(b, q, n + 1)
    ensures a[p + n] == b[q + n] ==> V(a, p, n + 1) - V(b, q, n + 1) == V(a, p, n) - V(b, q, n)
  {
    hide V, Sh;
    Top(a, p, n);
    Top(b, q, n);
    if a[p + n] > b[q + n] {
      ShAdd(a[p + n] - 1, 1, n);
      ShMono(b[q + n], a[p + n] - 1, n);
      PwOne(n);
    }
  }

  lemma HighStays(low: int, high: int, N: nat)
    requires 0 <= low < Pw(N) && low + Sh(high, N) >= 0
    ensures high >= 0
  {
    hide Sh, Pw;
    PwOne(N);
    ShAdd(0, 1, N);
    ShMono(0, 0, N);
    if high <= -1 { ShMono(high, -1, N); }
  }

  lemma DropPair(m: seq<word>, p: nat, len: nat)
    requires 2 <= len && p + len <= |m| && m[p + len - 2] == 0 && m[p + len - 1] == 0
    ensures V(m, p, len - 2) == V(m, p, len)
  {
    hide V, Sh;
    Top(m, p, len - 1);
    Top(m, p, len - 2);
    ShMono(0, 0, len - 1);
    ShMono(0, 0, len - 2);
  }

  ghost function Sign(x: int): int {
    if x > 0 then 1 else if x < 0 then -1 else 0
  }

  /** Sign of A - B. */
  method Compare(mem: array<word>, a: nat, b: nat, N: nat) returns (r: int)
    requires a + N <= mem.Length && b + N <= mem.Length
    ensures r == Sign(V(mem[..], a, N) - V(mem[..], b, N))
  {
    hide V, Sh;
    ghost var m := mem[..];
    ghost var d: int := V(m, a, N) - V(m, b, N);
    var n: nat := N;
    while n > 0
      invariant n <= N
      invariant V(m, a, n) == V(m, b, n) + d
    {
      n := n - 1;
      DiffersAt(m, a, m, b, n);
      DiffersAt(m, b, m, a, n);
      if mem[a + n] > mem[b + n] {
        return 1;
      } else if mem[a + n] < mem[b + n] {
        return -1;
      }
    }
    Empty(m, a);
    Empty(m, b);
    return 0;
  }

  lemma ShW(x: int, n: nat)
    ensures Sh(W * x, n) == Sh(x, n + 1)
  {
    ShSh(x, 1, n);
    assert Sh(x, 1) == W * Sh(x, 0);
  }

  lemma CarryIn(x: word, y: word, n: nat)
    requires y == x + 1 || (x == W - 1 && y == 0)
    ensures y == x + 1 ==> Sh(x, n) + Sh(1, n) == Sh(y, n)
    ensures y == 0 ==> Sh(x, n) + Sh(1, n) == Sh(y, n) + Sh(1, n + 1)
  {
    hide Sh;
    ShAdd(x, 1, n);
    ShW(1, n);
    ShMono(0, 1, n);
    assert y == 0 ==> x + 1 == W * 1;
  }

  /** A += B, returning the carry out. */
  method Increment(mem: array<word>, a: nat, N: nat, B: word) returns (carry: word)
    requires N > 0 && a + N <= mem.Length
    modifies mem
    ensures carry <= 1
    ensures Frame(old(mem[..]), mem[..], a, N)
    ensures V(mem[..], a, N) + Sh(carry, N) == V(old(mem[..]), a, N) + B
  {
    hide V, Sh;
    ghost var m0 := mem[..];
    var t := mem[a];
    mem[a] := (t + B) % W;
    V1(m0, a);
    V1(mem[..], a);
    ShMono(0, 0, N);
    if mem[a] >= t {
      TailSame(m0, mem[..], a, 1, N);
      return 0;
    }
    var i := 1;
    while i < N
      invariant 1 <= i <= N
      invariant Frame(m0, mem[..], a, i)
      invariant V(mem[..], a, i) + Sh(1, i) == V(m0, a, i) + B
    {
      ghost var m1 := mem[..];
      mem[a + i] := (mem[a + i] + 1) % W;
      Grow(m1, mem[..], a, i);
      Top(m0, a, i);
      CarryIn(m0[a + i], mem[a + i], i);
      i := i + 1;
      if mem[a + i - 1] != 0 {
        TailSame(m0, mem[..], a, i, N);
        return 0;
      }
    }
    return 1;
  }

  /** A -= B, returning the borrow out. */
  method Decrement(mem: array<word>, a: nat, N: nat, B: word) returns (borrow: word)
    requires N > 0 && a + N <= mem.Length
    modifies mem
    ensures borrow <= 1
    ensures Frame(old(mem[..]), mem[..], a, N)
    ensures V(mem[..], a, N) - Sh(borrow, N) == V(old(mem[..]), a, N) - B
  {
    hide V, Sh;
    ghost var m0 := mem[..];
    var t := mem[a];
    mem[a] := (t - B) % W;
    V1(m0, a);
    V1(mem[..], a);
    ShMono(0, 0, N);
    if mem[a] <= t {
      TailSame(m0, mem[..], a, 1, N);
      return 0;
    }
    var i := 1;
    while i < N
      invariant 1 <= i <= N
      invariant Frame(m0, mem[..], a, i)
      invariant V(mem[..], a, i) - Sh(1, i) == V(m0, a, i) - B
    {
      ghost var m1 := mem[..];
      var u := mem[a + i];
      mem[a + i] := (u - 1) % W;
      Grow(m1, mem[..], a, i);
      Top(m0, a, i);
      CarryIn(mem[a + i], u, i);
      i := i + 1;
      if u != 0 {
        TailSame(m0, mem[..], a, i, N);
        return 0;
      }
    }
    return 1;
  }

  /** A := -A, modulo W^N. */
  method TwosComplement(mem: array<word>, a: nat, N: nat)
    requires N > 0 && a + N <= mem.Length
    modifies mem
    ensures Frame(old(mem[..]), mem[..], a, N)
    ensures V(mem[..], a, N) == if V(old(mem[..]), a, N) == 0 then 0 else Pw(N) - V(old(mem[..]), a, N)
  {
    hide V, Sh;
    ghost var v0 := V(mem[..], a, N);
    var borrow := Decrement(mem, a, N, 1);
    ghost var m1 := mem[..];
    assert V(m1, a, N) == if v0 == 0 then Pw(N) - 1 else v0 - 1 by {
      ShMono(0, 1, N);
      if borrow == 0 { assert Sh(borrow, N) == 0; }
    }
    var i := 0;
    assert V(m1, a, 0) == V(mem[..], a, 0) == 0 && Pw(0) == 1 by { Empty(m1, a); }
    while i < N
      invariant i <= N
      invariant Frame(m1, mem[..], a, i)
      invariant V(mem[..], a, i) + V(m1, a, i) == Pw(i) - 1
    {
      ghost var m2 := mem[..];
      mem[a + i] := W - 1 - mem[a + i];
      Grow(m2, mem[..], a, i);
      Top(m1, a, i);
      Complement(m1[a + i], i);
      i := i + 1;
    }
  }

  lemma Empty(m: seq<word>, p: nat)
    requires p <= |m|
    ensures V(m, p, 0) == 0 && Pw(0) == 1
  {
  }

  lemma Complement(x: word, n: nat)
    ensures Sh(x, n) + Sh(W - 1 - x, n) == Pw(n + 1) - Pw(n)
  {
    hide Sh;
    ShAdd(x, W - 1 - x, n);
    ShAdd(W, 1, n);
    ShW(1, n);
  }

  method SetWords(mem: array<word>, r: nat, a: word, n: nat)
    requires r + n <= mem.Length
    modifies mem
    ensures Frame(old(mem[..]), mem[..], r, n)
    ensures forall i :: r <= i < r + n ==> mem[i] == a
  {
    for i := 0 to n
      invariant Frame(old(mem[..]), mem[..], r, i)
      invariant forall k :: r <= k < r + i ==> mem[k] == a
    {
      mem[r + i] := a;
    }
  }

  /** R := A; the loop runs upwards, so R may overlap A from below. */
  method CopyWords(mem: array<word>, r: nat, a: nat, n: nat)
    requires r + n <= mem.Length && a + n <= mem.Length
    requires r <= a || Disjoint(r, n, a, n)
    modifies mem
    ensures Frame(old(mem[..]), mem[..], r, n)
    ensures mem[r..r + n] == old(mem[a..a + n])
    ensures V(mem[..], r, n) == V(old(mem[..]), a, n)
  {
    hide V;
    ghost var m0 := mem[..];
    for i := 0 to n
      invariant Frame(m0, mem[..], r, i)
      invariant mem[r..r + i] == m0[a..a + i]
    {
      mem[r + i] := mem[a + i];
    }
    assert mem[r..r + n] == m0[a..a + n];
    MovedV(m0, a, mem[..], r, n);
  }

  lemma AddStep(x: word, y: word, c: word, i: nat)
    requires c <= 1
    ensures (x + y + c) / W <= 1
    ensures Sh(x, i) + Sh(y, i) + Sh(c, i) == Sh((x + y + c) % W, i) + Sh((x + y + c) / W, i + 1)
  {
    hide Sh;
    var s := x + y + c;
    ShAdd(x, y, i);
    ShAdd(x + y, c, i);
    ShAdd(s % W, W * (s / W), i);
    ShW(s / W, i);
  }

  lemma SubStep(x: word, y: word, c: word, i: nat)
    requires c <= 1
    ensures -1 <= (x - y - c) / W
    ensures Sh(x, i) - Sh(y, i) - Sh(c, i) == Sh((x - y - c) % W, i) - Sh(-((x - y - c) / W), i + 1)
  {
    hide Sh;
    var s := x - y - c;
    var q := s / W;
    ShAdd(x, y, i);
    ShAdd(x - y, c, i);
    ShAdd(s % W, W * -q, i);
    ShW(-q, i);
  }

  /** C := A + B, returning the carry out. C may be A or B. */
  method Add(mem: array<word>, C: nat, A: nat, B: nat, N: nat) returns (carry: word)
    requires N % 2 == 0
    requires C + N <= mem.Length && A + N <= mem.Length && B + N <= mem.Length
    requires C == A || Disjoint(C, N, A, N)
    requires C == B || Disjoint(C, N, B, N)
    modifies mem
    ensures carry <= 1
    ensures Frame(old(mem[..]), mem[..], C, N)
    ensures V(mem[..], C, N) + Sh(carry, N) == V(old(mem[..]), A, N) + V(old(mem[..]), B, N)
  {
    hide V, Sh;
    ghost var m0 := mem[..];
    carry := 0;
    var i := 0;
    Empty(m0, A); Empty(m0, B); Empty(m0, C); ShMono(0, 0, 0);
    while i < N
      invariant i <= N && i % 2 == 0
      invariant carry <= 1
      invariant Frame(m0, mem[..], C, i)
      invariant V(mem[..], C, i) + Sh(carry, i) == V(m0, A, i) + V(m0, B, i)
    {
      carry := AddWord(mem, C, A, B, i, carry, m0);
      carry := AddWord(mem, C, A, B, i + 1, carry, m0);
      i := i + 2;
    }
  }

  /** One double-word addition of the loop in Add. */
  method AddWord(mem: array<word>, C: nat, A: nat, B: nat, i: nat, c: word, ghost m0: seq<word>)
    returns (carry: word)
    requires C + i < mem.Length && A + i < mem.Length && B + i < mem.Length
    requires C == A || Disjoint(C, i + 1, A, i + 1)
    requires C == B || Disjoint(C, i + 1, B, i + 1)
    requires c <= 1 && Frame(m0, mem[..], C, i)
    requires V(mem[..], C, i) + Sh(c, i) == V(m0, A, i) + V(m0, B, i)
    modifies mem
    ensures carry <= 1 && Frame(m0, mem[..], C, i + 1)
    ensures V(mem[..], C, i + 1) + Sh(carry, i + 1) == V(m0, A, i + 1) + V(m0, B, i + 1)
  {
    hide V, Sh;
    ghost var m1 := mem[..];
    var u := mem[A + i] + mem[B + i] + c;
    AddStep(mem[A + i], mem[B + i], c, i);
    mem[C + i] := u % W;
    carry := u / W;
    Grow(m1, mem[..], C, i);
    Top(m0, A, i);
    Top(m0, B, i);
  }

  /** C := A - B, returning the borrow out. C may be A or B. */
  method Subtract(mem: array<word>, C: nat, A: nat, B: nat, N: nat) returns (borrow: word)
    requires N % 2 == 0
    requires C + N <= mem.Length && A + N <= mem.Length && B + N <= mem.Length
    requires C == A || Disjoint(C, N, A, N)
    requires C == B || Disjoint(C, N, B, N)
    modifies mem
    ensures borrow <= 1
    ensures Frame(old(mem[..]), mem[..], C, N)
    ensures V(mem[..], C, N) - Sh(borrow, N) == V(old(mem[..]), A, N) - V(old(mem[..]), B, N)
  {
    hide V, Sh;
    ghost var m0 := mem[..];
    borrow := 0;
    var i := 0;
    Empty(m0, A); Empty(m0, B); Empty(m0, C); ShMono(0, 0, 0);
    while i < N
      invariant i <= N && i % 2 == 0
      invariant borrow <= 1
      invariant Frame(m0, mem[..], C, i)
      invariant V(mem[..], C, i) - Sh(borrow, i) == V(m0, A, i) - V(m0, B, i)
    {
      borrow := SubtractWord(mem, C, A, B, i, borrow, m0);
      borrow := SubtractWord(mem, C, A, B, i + 1, borrow, m0);
      i := i + 2;
    }
  }

  /** One double-word subtraction of the loop in Subtract: the borrow is the
      negated high half of the wrapped difference. */
  method SubtractWord(mem: array<word>, C: nat, A: nat, B: nat, i: nat, c: word, ghost m0: seq<word>)
    returns (borrow: word)
    requires C + i < mem.Length && A + i < mem.Length && B + i < mem.Length
    requires C == A || Disjoint(C, i + 1, A, i + 1)
    requires C == B || Disjoint(C, i + 1, B, i + 1)
    requires c <= 1 && Frame(m0, mem[..], C, i)
    requires V(mem[..], C, i) - Sh(c, i) == V(m0, A, i) - V(m0, B, i)
    modifies mem
    ensures borrow <= 1 && Frame(m0, mem[..], C, i + 1)
    ensures V(mem[..], C, i + 1) - Sh(borrow, i + 1) == V(m0, A, i + 1) - V(m0, B, i + 1)
  {
    hide V, Sh;
    ghost var m1 := mem[..];
    var u := mem[A + i] - mem[B + i] - c;
    SubStep(mem[A + i], mem[B + i], c, i);
    mem[C + i] := u % W;
    borrow := -(u / W);
    Grow(m1, mem[..], C, i);
    Top(m0, A, i);
    Top(m0, B, i);
  }
}
